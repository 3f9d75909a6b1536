/** The JA4 fingerprint is canonical: it does not depend on the order of cipher suites or
    of extensions, nor on GREASE values.  Stated on the bytes: parse, then build. */
module Ja4Canonical {
  import opened Wrappers
  import opened Bytes
  import opened Ja4Parser
  import opened ClientHello
  import opened Ja4Build
  import opened Sorting

  /** The fingerprint of a handshake message; None when it does not parse. */
  function Fingerprint(sha: Sha, msg: seq<byte>): Option<seq<byte>>
  {
    match ParseHello(msg)
    case None => None
    case Some(f) => Some(Ja4String(sha, f))
  }

  lemma {:induction false} WalkAlpn(s: seq<byte>, f: Facts)
    requires IsAlnum(f.alpnFirst) && IsAlnum(f.alpnLast)
    ensures Walk(STEP, s, f).Some? ==>
      IsAlnum(Walk(STEP, s, f).value.alpnFirst) && IsAlnum(Walk(STEP, s, f).value.alpnLast)
    decreases |s|
  {
    if |s| >= 4 && |s| - 4 >= U16At(s, 2) {
      var n := 4 + U16At(s, 2);
      WalkAlpn(s[n..], ExtStep(f, U16At(s, 0), s[4..n]));
    }
  }

  /** Every fingerprint has 36 characters, a(10)_b(12)_c(12), alphanumeric apart from the
      underscores: no byte of the message reaches it raw. */
  lemma FingerprintShape(sha: Sha, msg: seq<byte>)
    ensures var r := Fingerprint(sha, msg); r.Some? ==>
      && |r.value| == 36 && r.value[10] == UNDERSCORE && r.value[23] == UNDERSCORE
      && forall i :: 0 <= i < 36 && i != 10 && i != 23 ==> IsAlnum(r.value[i])
  {
    if ParseHello(msg).Some? {
      ParsedAlpn(msg);
      Ja4Shape(sha, ParseHello(msg).value);
    }
  }

  lemma ParsedAlpn(msg: seq<byte>)
    requires ParseHello(msg).Some?
    ensures IsAlnum(ParseHello(msg).value.alpnFirst) && IsAlnum(ParseHello(msg).value.alpnLast)
  {
    var n := 65536 * (msg[1] as int) + 256 * (msg[2] as int) + msg[3];
    var (f, r) := ParseHead(msg[4..4 + n]).value;
    var r1 := Vec8(r).value.1;
    if r1 != [] {
      WalkAlpn(Vec16(r1).value.0, f);
    }
  }

  // ----- what the fingerprint depends on

  /** An extension without what JA4 ignores in it. */
  datatype Core = Sni | Sigs(schemes: seq<nat>) | Protocols(names: seq<seq<byte>>)
                | Versions(top: nat) | Plain(code: nat)
  {
    function Code(): nat
    {
      match this
      case Sni => 0
      case Sigs(_) => 13
      case Protocols(_) => 16
      case Versions(_) => 43
      case Plain(code) => code
    }
  }

  function CoreOf(e: Extension): Core
  {
    match e
    case ServerName(_) => Sni
    case SignatureAlgorithms(ss) => Sigs(NonGrease(ss))
    case Alpn(names) => Protocols(names)
    case SupportedVersions(vs) => Versions(MaxOf(NonGrease(vs)))
    case Other(code, _) => Plain(code)
  }

  const KEEP: Extension -> seq<Core> := (e: Extension) => if IsGrease(e.Type()) then [] else [CoreOf(e)]
  const CODE: Core -> seq<nat> := (c: Core) => [c.Code()]

  function Cores(es: seq<Extension>): seq<Core> { FlatMap(KEEP, es) }
  function Codes(cs: seq<Core>): seq<nat> { FlatMap(CODE, cs) }

  // ----- the parsed facts, in terms of the cores

  const SCHEMES: Core -> seq<nat> := (c: Core) => if c.Sigs? then c.schemes else []

  function CoreSchemes(cs: seq<Core>): seq<nat> { FlatMap(SCHEMES, cs) }

  function CoreTop(cs: seq<Core>, d: nat): nat
  {
    if cs == [] then d else CoreTop(cs[1..], if cs[0].Versions? then cs[0].top else d)
  }

  /** A protocol list that names a first protocol. */
  predicate Named(c: Core) { c.Protocols? && c.names != [] && c.names[0] != [] }

  function CoreAlpn(cs: seq<Core>, d: (int, int)): (int, int)
  {
    if cs == [] then d else CoreAlpn(cs[1..], if Named(cs[0]) then AlpnEnds(cs[0].names[0]) else d)
  }

  lemma CoresCons(es: seq<Extension>)
    requires es != []
    ensures Cores(es) == KEEP(es[0]) + Cores(es[1..])
    ensures !IsGrease(es[0].Type()) ==>
      Cores(es) != [] && Cores(es)[0] == CoreOf(es[0]) && Cores(es)[1..] == Cores(es[1..])
    ensures IsGrease(es[0].Type()) ==> Cores(es) == Cores(es[1..]) && es[0].Other?
  {
  }

  lemma {:induction false} CoresKeepTypes(es: seq<Extension>)
    ensures NonGrease(Types(es)) == Codes(Cores(es))
  {
    if es != [] {
      CoresKeepTypes(es[1..]);
      CoresCons(es);
      TypesCons(es);
      if !IsGrease(es[0].Type()) { CodesFirst(Cores(es)); }
    }
  }

  lemma CodesFirst(cs: seq<Core>)
    requires cs != []
    ensures Codes(cs) == [cs[0].Code()] + Codes(cs[1..])
  {
  }

  lemma TypesCons(es: seq<Extension>)
    requires es != []
    ensures NonGrease(Types(es)) ==
      if IsGrease(es[0].Type()) then NonGrease(Types(es[1..])) else [es[0].Type()] + NonGrease(Types(es[1..]))
  {
    assert Types(es)[1..] == Types(es[1..]);
  }

  lemma CodesAfter(es: seq<Extension>, code: nat)
    requires es != [] && !IsGrease(code)
    ensures code in Codes(Cores(es)) <==> es[0].Type() == code || code in Codes(Cores(es[1..]))
  {
    CoresCons(es);
    if !IsGrease(es[0].Type()) { CodesFirst(Cores(es)); }
  }

  lemma {:induction false} CoresKeepServerName(es: seq<Extension>)
    ensures Offers(es, 0) <==> 0 in Codes(Cores(es))
  {
    if es != [] {
      var e, rest := es[0], es[1..];
      CoresKeepServerName(rest);
      assert [e] + rest == es;
      OffersCons(e, rest, 0);
      CodesAfter(es, 0);
    }
  }

  lemma {:induction false} CoresKeepSchemes(es: seq<Extension>)
    ensures NonGrease(Schemes(es)) == CoreSchemes(Cores(es))
  {
    if es != [] {
      CoresKeepSchemes(es[1..]);
      CoresCons(es);
      if es[0].SignatureAlgorithms? {
        NonGreaseConcat(es[0].schemes, Schemes(es[1..]));
      } else {
        assert Schemes(es) == Schemes(es[1..]);
      }
    }
  }

  lemma {:induction false} CoresKeepChoices(es: seq<Extension>, top: nat, ends: (int, int))
    ensures TopVersion(es, top) == CoreTop(Cores(es), top)
    ensures AlpnChars(es, ends) == CoreAlpn(Cores(es), ends)
  {
    if es != [] {
      var e, rest := es[0], es[1..];
      assert [e] + rest == es;
      OneStep(e, rest, top, ends);
      CoresKeepChoices(rest, TopVersion([e], top), AlpnChars([e], ends));
      CoresCons(es);
    }
  }

  lemma OneStep(e: Extension, rest: seq<Extension>, top: nat, ends: (int, int))
    ensures TopVersion([e] + rest, top) == TopVersion(rest, TopVersion([e], top))
    ensures AlpnChars([e] + rest, ends) == AlpnChars(rest, AlpnChars([e], ends))
    ensures TopVersion([e], top) == if e.SupportedVersions? then MaxOf(NonGrease(e.versions)) else top
    ensures AlpnChars([e], ends) == if e.Alpn? && e.names != [] && e.names[0] != []
                                    then AlpnEnds(e.names[0]) else ends
  {
    var es := [e] + rest;
    assert es[0] == e && es[1..] == rest;
    var one: seq<Extension> := [e];
    assert one[1..] == [];
  }

  // ----- when the order of the extensions does not show

  /** The version characters for a top version. */
  function Shown(legacy: nat, top: nat): seq<byte> { VersionCode(if top != 0 then top else legacy) }

  /** All supported_versions extensions show one version. */
  ghost predicate VersionsAgree(legacy: nat, cs: seq<Core>)
  {
    forall x, y :: x in cs && y in cs && x.Versions? && y.Versions? ==> Shown(legacy, x.top) == Shown(legacy, y.top)
  }

  /** All ALPN extensions that name a protocol give the same two characters. */
  ghost predicate AlpnsAgree(cs: seq<Core>)
  {
    forall x, y :: x in cs && y in cs && Named(x) && Named(y) ==> AlpnEnds(x.names[0]) == AlpnEnds(y.names[0])
  }

  /** Any two signature_algorithms lists read the same in either order, as far as the parser
      keeps them. */
  ghost predicate SchemesAgree(cs: seq<Core>)
  {
    forall x, y :: x in cs && y in cs && x.Sigs? && y.Sigs? ==> Commute(x.schemes, y.schemes, MAX_SIG_ALGS)
  }

  predicate Commute(a: seq<nat>, b: seq<nat>, cap: nat) { Take(a + b, cap) == Take(b + a, cap) }

  /** The types fit the capacity, or all are one type, or all are left out of the hash. */
  ghost predicate TypesAgree(cs: seq<Core>)
  {
    || |cs| <= MAX_EXTENSIONS
    || forall x, y :: x in cs && y in cs ==> HASHED(x.Code()) == HASHED(y.Code())
  }

  lemma {:induction false} TopOf(cs: seq<Core>, d: nat)
    ensures Versions(CoreTop(cs, d)) in cs || (CoreTop(cs, d) == d && forall t :: Versions(t) !in cs)
  {
    if cs != [] {
      assert cs == [cs[0]] + cs[1..];
      TopOf(cs[1..], if cs[0].Versions? then cs[0].top else d);
    }
  }

  lemma ShownPermutes(legacy: nat, a: seq<Core>, b: seq<Core>)
    requires Permutes(a, b) && VersionsAgree(legacy, a)
    ensures Shown(legacy, CoreTop(a, 0)) == Shown(legacy, CoreTop(b, 0))
  {
    TopOf(a, 0);
    TopOf(b, 0);
    PermutesMember(a, b, Versions(CoreTop(a, 0)));
    PermutesMember(a, b, Versions(CoreTop(b, 0)));
  }

  /** Some extension that names a protocol has these end characters. */
  ghost predicate HasEnds(cs: seq<Core>, ends: (int, int))
  {
    exists x :: x in cs && Named(x) && AlpnEnds(x.names[0]) == ends
  }

  lemma {:induction false} EndsOf(cs: seq<Core>, d: (int, int))
    ensures HasEnds(cs, CoreAlpn(cs, d)) || (CoreAlpn(cs, d) == d && forall x :: x in cs ==> !Named(x))
  {
    if cs != [] {
      assert cs == [cs[0]] + cs[1..];
      EndsOf(cs[1..], if Named(cs[0]) then AlpnEnds(cs[0].names[0]) else d);
      assert Named(cs[0]) ==> HasEnds(cs, AlpnEnds(cs[0].names[0]));
    }
  }

  lemma AlpnPermutes(a: seq<Core>, b: seq<Core>, d: (int, int))
    requires Permutes(a, b) && AlpnsAgree(a)
    ensures CoreAlpn(a, d) == CoreAlpn(b, d)
  {
    EndsOf(a, d);
    EndsOf(b, d);
    forall x ensures x in a <==> x in b { PermutesMember(a, b, x); }
  }

  lemma TakeAfter(a: seq<nat>, b: seq<nat>, c: seq<nat>, n: nat)
    requires Take(b, n) == Take(c, n)
    ensures Take(a + b, n) == Take(a + c, n)
  {
    TakeConcat(a, b, n);
    TakeConcat(a, c, n);
    TakeLess(b, c, n - |Take(a, n)|, n);
  }

  lemma TakeLess(b: seq<nat>, c: seq<nat>, m: nat, n: nat)
    requires m <= n && Take(b, n) == Take(c, n)
    ensures Take(b, m) == Take(c, m)
  {
    assert Take(Take(b, n), m) == Take(b, m) && Take(Take(c, n), m) == Take(c, m);
  }

  lemma TakeBefore(a: seq<nat>, b: seq<nat>, c: seq<nat>, n: nat)
    requires Take(a, n) == Take(b, n) && |a| == |b|
    ensures Take(a + c, n) == Take(b + c, n)
  {
    TakeConcat(a, c, n);
    TakeConcat(b, c, n);
  }

  /** A list that commutes with every other may be read first. */
  lemma {:induction false} SchemesFirst(cs: seq<Core>, s: seq<nat>, n: nat)
    requires forall y :: y in cs && y.Sigs? ==> Commute(y.schemes, s, n)
    ensures Commute(CoreSchemes(cs), s, n)
  {
    if cs == [] {
      assert [] + s == s && s + [] == s;
    } else {
      assert cs == [cs[0]] + cs[1..];
      SchemesFirst(cs[1..], s, n);
      CommuteBoth(SCHEMES(cs[0]), CoreSchemes(cs[1..]), s, n);
    }
  }

  lemma CommuteBoth(a: seq<nat>, b: seq<nat>, s: seq<nat>, n: nat)
    requires (a == [] || Commute(a, s, n)) && Commute(b, s, n)
    ensures Commute(a + b, s, n)
  {
    TakeAfter(a, b + s, s + b, n);
    assert [] + s == s + [];
    TakeBefore(a + s, s + a, b, n);
    Regroup(a, b, s);
    Regroup(a, s, b);
    Regroup(s, a, b);
  }

  lemma {:induction false} SchemesPermute(a: seq<Core>, b: seq<Core>)
    requires Permutes(a, b) && SchemesAgree(a)
    ensures Take(CoreSchemes(a), MAX_SIG_ALGS) == Take(CoreSchemes(b), MAX_SIG_ALGS)
  {
    PermutesLength(a, b);
    if a != [] {
      PermutesMember(a, b, a[0]);
      var j :| 0 <= j < |b| && b[j] == a[0];
      var l, r := b[..j], b[j + 1..];
      RemoveOne(a, b, j);
      assert a == [a[0]] + a[1..];
      SchemesPermute(a[1..], l + r);
      forall y | y in l ensures y in a { PermutesMember(a, b, y); }
      AroundOne(b, j);
      SchemesMoved(l, a[0], r);
      TakeAfter(SCHEMES(a[0]), CoreSchemes(a[1..]), CoreSchemes(l + r), MAX_SIG_ALGS);
    }
  }

  lemma NothingBetween(a: seq<nat>, b: seq<nat>)
    ensures a + [] + b == [] + (a + b)
  {
  }

  lemma SchemesMoved(l: seq<Core>, c: Core, r: seq<Core>)
    requires c.Sigs? ==> forall y :: y in l && y.Sigs? ==> Commute(y.schemes, c.schemes, MAX_SIG_ALGS)
    ensures Take(CoreSchemes(l + [c] + r), MAX_SIG_ALGS) == Take(SCHEMES(c) + CoreSchemes(l + r), MAX_SIG_ALGS)
  {
    var s := SCHEMES(c);
    FlatMapMiddle(SCHEMES, l, c, r);
    FlatMapConcat(SCHEMES, l, r);
    if c.Sigs? {
      SchemesFirst(l, s, MAX_SIG_ALGS);
      TakeBefore(CoreSchemes(l) + s, s + CoreSchemes(l), CoreSchemes(r), MAX_SIG_ALGS);
      Regroup(s, CoreSchemes(l), CoreSchemes(r));
    } else {
      NothingBetween(CoreSchemes(l), CoreSchemes(r));
    }
  }

  // ----- the string depends on the lists only up to order

  const LOW16: nat -> seq<nat> := (v: nat) => [v % 0x1_0000]
  const HASHED: nat -> seq<nat> := (v: nat) => if v == 0 || v == 16 then [] else [v]

  lemma {:induction false} Low16sMap(vs: seq<nat>)
    ensures Low16s(vs) == FlatMap(LOW16, vs)
  {
    if vs != [] {
      Low16sMap(vs[1..]);
      assert Low16s(vs) == [vs[0] % 0x1_0000] + Low16s(vs[1..]);
    }
  }

  lemma {:induction false} HashedMap(vs: seq<nat>)
    ensures Hashed(vs) == FlatMap(HASHED, vs)
  {
    if vs != [] {
      var k := |vs| - 1;
      HashedMap(vs[..k]);
      FlatMapConcat(HASHED, vs[..k], [vs[k]]);
      FlatMapOne(HASHED, vs[k]);
      assert vs == vs[..k] + [vs[k]];
    }
  }

  lemma SortedSame(a: seq<nat>, b: seq<nat>)
    requires Permutes(a, b)
    ensures Sort(LEQ, Low16s(a)) == Sort(LEQ, Low16s(b))
  {
    Low16sMap(a);
    Low16sMap(b);
    FlatMapPermutes(LOW16, a, b);
    NumbersOrdered();
    SortCanonical(LEQ, Low16s(a), Low16s(b));
  }

  lemma PartBSame(sha: Sha, a: seq<nat>, b: seq<nat>)
    requires Permutes(a, b)
    ensures |a| == |b| && PartB(sha, a) == PartB(sha, b)
  {
    PermutesLength(a, b);
    SortedSame(a, b);
  }

  lemma PartCSame(sha: Sha, a: seq<nat>, b: seq<nat>, sigs: seq<nat>)
    requires Permutes(Hashed(a), Hashed(b))
    ensures PartC(sha, a, sigs) == PartC(sha, b, sigs)
  {
    PermutesLength(Hashed(a), Hashed(b));
    SortedSame(Hashed(a), Hashed(b));
  }

  lemma StringSame(sha: Sha, f: Facts, g: Facts)
    requires PartA(f) == PartA(g) && f.sigAlgs == g.sigAlgs
    requires Permutes(f.ciphers, g.ciphers) && Permutes(Hashed(f.extensions), Hashed(g.extensions))
    ensures Ja4String(sha, f) == Ja4String(sha, g)
  {
    PartBSame(sha, f.ciphers, g.ciphers);
    PartCSame(sha, f.extensions, g.extensions, f.sigAlgs);
  }

  lemma HashedPermutes(a: seq<nat>, b: seq<nat>)
    requires Permutes(a, b)
    ensures Permutes(Hashed(a), Hashed(b))
  {
    HashedMap(a);
    HashedMap(b);
    FlatMapPermutes(HASHED, a, b);
  }

  /** Lists of types that cannot be told apart in the hash. */
  lemma {:induction false} HashedSame(a: seq<nat>, b: seq<nat>)
    requires |a| == |b| && forall i, j :: 0 <= i < |a| && 0 <= j < |b| ==> HASHED(a[i]) == HASHED(b[j])
    ensures FlatMap(HASHED, a) == FlatMap(HASHED, b)
  {
    if a != [] { HashedSame(a[1..], b[1..]); }
  }

  lemma {:induction false} CodesAt(cs: seq<Core>)
    ensures |Codes(cs)| == |cs| && forall i :: 0 <= i < |cs| ==> Codes(cs)[i] == cs[i].Code()
  {
    if cs != [] {
      CodesAt(cs[1..]);
      CodesFirst(cs);
      forall i | 0 <= i < |cs| ensures Codes(cs)[i] == cs[i].Code() {
        if i > 0 { assert Codes(cs)[i] == Codes(cs[1..])[i - 1]; }
      }
    }
  }

  lemma KeptTypesPermute(a: seq<Core>, b: seq<Core>)
    requires Permutes(a, b) && TypesAgree(a)
    ensures |a| == |b| && (0 in Codes(a) <==> 0 in Codes(b))
    ensures Permutes(Hashed(Take(Codes(a), MAX_EXTENSIONS)), Hashed(Take(Codes(b), MAX_EXTENSIONS)))
  {
    PermutesLength(a, b);
    CodesAt(a);
    CodesAt(b);
    FlatMapPermutes(CODE, a, b);
    PermutesMember(Codes(a), Codes(b), 0);
    var s, t := Take(Codes(a), MAX_EXTENSIONS), Take(Codes(b), MAX_EXTENSIONS);
    if |a| <= MAX_EXTENSIONS {
      HashedPermutes(s, t);
    } else {
      forall i, j | 0 <= i < |s| && 0 <= j < |t| ensures HASHED(s[i]) == HASHED(t[j]) {
        PermutesMember(a, b, b[j]);
        assert a[i] in a && b[j] in a;
      }
      HashedSame(s, t);
      HashedMap(s);
      HashedMap(t);
    }
  }

  // ----- the theorem

  /** Two hellos of one client: equal up to the order of cipher suites and extensions and
      up to GREASE. */
  ghost predicate SameClient(h: Hello, g: Hello)
  {
    && h.legacyVersion == g.legacyVersion
    && Permutes(NonGrease(h.ciphers), NonGrease(g.ciphers))
    && Permutes(Cores(h.ExtList()), Cores(g.ExtList()))
  }

  /** When neither order nor GREASE can show: what a caller can check of one hello. */
  ghost predicate Agrees(h: Hello)
  {
    var cs, vs := Cores(h.ExtList()), NonGrease(h.ciphers);
    && (|vs| <= MAX_CIPHERS || AllEqual(vs))
    && VersionsAgree(h.legacyVersion, cs) && AlpnsAgree(cs) && SchemesAgree(cs) && TypesAgree(cs)
  }

  lemma FoundByCores(h: Hello)
    ensures var cs, f := Cores(h.ExtList()), Found(h);
      && f.ciphers == Kept(h.ciphers, MAX_CIPHERS) && f.extensions == Take(Codes(cs), MAX_EXTENSIONS)
      && f.sigAlgs == Take(CoreSchemes(cs), MAX_SIG_ALGS) && f.supportedMax == CoreTop(cs, 0)
      && (f.alpnFirst, f.alpnLast) == CoreAlpn(cs, (ZERO, ZERO)) && (f.sni <==> 0 in Codes(cs))
      && f.legacyVersion == h.legacyVersion
  {
    CoresKeepTypes(h.ExtList());
    CoresKeepServerName(h.ExtList());
    CoresKeepSchemes(h.ExtList());
    CoresKeepChoices(h.ExtList(), 0, (ZERO, ZERO));
  }

  /** The fingerprint is canonical, whatever the hash. */
  lemma Canonical(sha: Sha, h: Hello, g: Hello)
    requires h.Formed() && g.Formed() && SameClient(h, g) && Agrees(h)
    ensures Fingerprint(sha, h.Bytes()) == Fingerprint(sha, g.Bytes())
    ensures Fingerprint(sha, h.Bytes()).Some?
  {
    ParseInverts(h);
    ParseInverts(g);
    PartASame(h, g);
    CiphersSame(NonGrease(h.ciphers), NonGrease(g.ciphers), MAX_CIPHERS);
    FoundByCores(h);
    FoundByCores(g);
    KeptTypesPermute(Cores(h.ExtList()), Cores(g.ExtList()));
    SchemesPermute(Cores(h.ExtList()), Cores(g.ExtList()));
    StringSame(sha, Found(h), Found(g));
  }

  lemma PartASame(h: Hello, g: Hello)
    requires SameClient(h, g) && Agrees(h)
    ensures PartA(Found(h)) == PartA(Found(g))
  {
    var a, b := Cores(h.ExtList()), Cores(g.ExtList());
    FoundByCores(h);
    FoundByCores(g);
    PermutesLength(NonGrease(h.ciphers), NonGrease(g.ciphers));
    KeptTypesPermute(a, b);
    CodesAt(a);
    CodesAt(b);
    ShownPermutes(h.legacyVersion, a, b);
    AlpnPermutes(a, b, (ZERO, ZERO));
  }

  lemma CiphersSame(a: seq<nat>, b: seq<nat>, cap: nat)
    requires Permutes(a, b) && (|a| <= cap || AllEqual(a))
    ensures Permutes(Take(a, cap), Take(b, cap))
  {
    PermutesLength(a, b);
    if AllEqual(a) { AllEqualPermutes(a, b); }
  }

  /** What RFC 8446 asks for is enough: no repeated types (section 4.2), and lists that fit. */
  lemma DistinctAgrees(h: Hello)
    requires |NonGrease(h.ciphers)| <= MAX_CIPHERS && |Cores(h.ExtList())| <= MAX_EXTENSIONS
    requires AtMostOnce(Cores(h.ExtList()), 13) && AtMostOnce(Cores(h.ExtList()), 16)
    requires AtMostOnce(Cores(h.ExtList()), 43)
    ensures Agrees(h)
  {
    var cs := Cores(h.ExtList());
    forall x, y | x in cs && y in cs && x.Versions? && y.Versions? ensures x == y { OnlyOne(cs, x, y); }
    forall x, y | x in cs && y in cs && Named(x) && Named(y) ensures x == y { OnlyOne(cs, x, y); }
    forall x, y | x in cs && y in cs && x.Sigs? && y.Sigs? ensures x == y { OnlyOne(cs, x, y); }
  }

  ghost predicate AtMostOnce(cs: seq<Core>, code: nat) { multiset(Codes(cs))[code] <= 1 }

  lemma {:induction false} OnlyOne(cs: seq<Core>, x: Core, y: Core)
    requires x in cs && y in cs && x.Code() == y.Code() && AtMostOnce(cs, x.Code())
    ensures x == y
  {
    var c, rest := cs[0], cs[1..];
    CodesFirst(cs);
    assert multiset(Codes(cs)) == multiset{c.Code()} + multiset(Codes(rest));
    assert cs == [c] + rest;
    if x in rest { CodeOf(rest, x); }
    if y in rest { CodeOf(rest, y); }
    if x in rest && y in rest { OnlyOne(rest, x, y); }
  }

  lemma CodeOf(cs: seq<Core>, c: Core)
    requires c in cs
    ensures c.Code() in Codes(cs)
  {
    CodesAt(cs);
    var i :| 0 <= i < |cs| && cs[i] == c;
    assert Codes(cs)[i] == c.Code();
  }

  // ----- the ways a client varies its hello

  const DROP_GREASE: nat -> seq<nat> := (v: nat) => if IsGrease(v) then [] else [v]

  lemma {:induction false} NonGreaseMap(vs: seq<nat>)
    ensures NonGrease(vs) == FlatMap(DROP_GREASE, vs)
  {
    if vs != [] { NonGreaseMap(vs[1..]); }
  }

  /** Shuffled cipher suites and extensions. */
  lemma ReorderedIsSame(h: Hello, g: Hello)
    requires h.legacyVersion == g.legacyVersion
    requires Permutes(h.ciphers, g.ciphers) && Permutes(h.ExtList(), g.ExtList())
    ensures SameClient(h, g)
  {
    NonGreaseMap(h.ciphers);
    NonGreaseMap(g.ciphers);
    var a: seq<nat>, b: seq<nat> := h.ciphers, g.ciphers;
    assert multiset(a) == multiset(b);
    FlatMapPermutes(DROP_GREASE, a, b);
    FlatMapPermutes(KEEP, h.ExtList(), g.ExtList());
  }

  /** A GREASE value among the cipher suites. */
  lemma GreaseCipherIsSame(h: Hello, i: nat, v: u16)
    requires i <= |h.ciphers| && IsGrease(v)
    ensures SameClient(h, h.(ciphers := h.ciphers[..i] + [v] + h.ciphers[i..]))
  {
    GreaseDropped(h.ciphers, i, v);
  }

  lemma {:induction false} GreaseDropped(vs: seq<nat>, i: nat, v: nat)
    requires i <= |vs| && IsGrease(v)
    ensures NonGrease(vs[..i] + [v] + vs[i..]) == NonGrease(vs)
  {
    assert vs[..i] + vs[i..] == vs;
    GreaseBetween(vs[..i], v, vs[i..]);
  }

  lemma {:induction false} GreaseBetween(a: seq<nat>, v: nat, b: seq<nat>)
    requires IsGrease(v)
    ensures NonGrease(a + [v] + b) == NonGrease(a + b)
  {
    if a == [] {
      assert a + [v] + b == [v] + b && a + b == b;
      NonGreaseCons(v, b);
    } else {
      var r := a[1..];
      GreaseBetween(r, v, b);
      HeadApart(a, v, b);
      NonGreaseCons(a[0], r + [v] + b);
      NonGreaseCons(a[0], r + b);
    }
  }

  lemma HeadApart(a: seq<nat>, v: nat, b: seq<nat>)
    requires a != []
    ensures a + [v] + b == [a[0]] + (a[1..] + [v] + b) && a + b == [a[0]] + (a[1..] + b)
  {
  }

  lemma NonGreaseCons(x: nat, s: seq<nat>)
    ensures NonGrease([x] + s) == (if IsGrease(x) then [] else [x]) + NonGrease(s)
  {
    assert ([x] + s)[1..] == s;
  }

  /** A GREASE extension. */
  lemma GreaseExtensionIsSame(h: Hello, i: nat, v: u16, data: seq<byte>)
    requires h.extensions.Some? && i <= |h.extensions.value| && IsGrease(v)
    ensures var es := h.extensions.value;
      SameClient(h, h.(extensions := Some(es[..i] + [Other(v, data)] + es[i..])))
  {
    var es := h.extensions.value;
    FlatMapDrop(KEEP, es[..i], Other(v, data), es[i..]);
    assert es[..i] + es[i..] == es;
  }

  /** A GREASE value in an extension's own list: its core is unchanged, and so is the
      list of cores. */
  lemma GreaseInsideIsSame(h: Hello, k: nat, i: nat, v: u16)
    requires h.extensions.Some? && k < |h.extensions.value| && IsGrease(v)
    requires var e := h.extensions.value[k];
      (e.SignatureAlgorithms? && i <= |e.schemes|) || (e.SupportedVersions? && i <= |e.versions|)
    ensures var es := h.extensions.value; var e := es[k];
      var e' := if e.SignatureAlgorithms? then SignatureAlgorithms(e.schemes[..i] + [v] + e.schemes[i..])
                else SupportedVersions(e.versions[..i] + [v] + e.versions[i..]);
      SameClient(h, h.(extensions := Some(es[k := e'])))
  {
    var es := h.extensions.value;
    var e := es[k];
    var e';
    if e.SignatureAlgorithms? {
      GreaseDropped(e.schemes, i, v);
      e' := SignatureAlgorithms(e.schemes[..i] + [v] + e.schemes[i..]);
    } else {
      GreaseDropped(e.versions, i, v);
      e' := SupportedVersions(e.versions[..i] + [v] + e.versions[i..]);
    }
    SwapCores(es, k, e');
  }

  lemma SwapCores(es: seq<Extension>, k: nat, e': Extension)
    requires k < |es| && KEEP(e') == KEEP(es[k])
    ensures Cores(es[k := e']) == Cores(es)
  {
    assert es == es[..k] + [es[k]] + es[k + 1..];
    assert es[k := e'] == es[..k] + [e'] + es[k + 1..];
    FlatMapMiddle(KEEP, es[..k], es[k], es[k + 1..]);
    FlatMapMiddle(KEEP, es[..k], e', es[k + 1..]);
  }

  // ----- past the capacity

  /** What the parser keeps of a list of 16-bit values. */
  function Kept(vs: seq<nat>, cap: nat): seq<nat> { Take(NonGrease(vs), cap) }

  ghost predicate AllEqual(vs: seq<nat>)
  {
    forall i, j :: 0 <= i < |vs| && 0 <= j < |vs| ==> vs[i] == vs[j]
  }

  /** Exchanging a kept and a dropped value that differ changes what is kept. */
  lemma SwapChangesKept(s: seq<nat>, cap: nat, i: nat, j: nat)
    requires i < cap <= j < |s| && s[i] != s[j]
    ensures Permutes(s, s[i := s[j]][j := s[i]])
    ensures !Permutes(Take(s, cap), Take(s[i := s[j]][j := s[i]], cap))
  {
    var t := s[i := s[j]][j := s[i]];
    assert Take(t, cap) == s[..cap][i := s[j]];
    assert multiset(s[..cap][i := s[j]]) == multiset(s[..cap]) - multiset{s[i]} + multiset{s[j]};
    assert s[..cap][i] in multiset(s[..cap]);
  }

  lemma KeptAndDroppedDiffer(s: seq<nat>, cap: nat) returns (i: nat, j: nat)
    requires 0 < cap < |s| && !AllEqual(s)
    ensures i < cap <= j < |s| && s[i] != s[j]
  {
    if k :| 0 <= k < cap && s[k] != s[cap] {
      i, j := k, cap;
    } else {
      var k :| 0 <= k < |s| && s[k] != s[cap];
      i, j := 0, k;
    }
  }

  const GREASE: nat -> bool := (v: nat) => IsGrease(v)
  const CLEAN: nat -> bool := (v: nat) => !IsGrease(v)

  lemma {:induction false} NonGreaseFilter(vs: seq<nat>)
    ensures NonGrease(vs) == Filter(CLEAN, vs)
  {
    if vs != [] { NonGreaseFilter(vs[1..]); }
  }

  lemma {:induction false} NonGreaseOfClean(vs: seq<nat>)
    requires forall i :: 0 <= i < |vs| ==> !IsGrease(vs[i])
    ensures NonGrease(vs) == vs
  {
    if vs != [] { NonGreaseOfClean(vs[1..]); }
  }

  lemma {:induction false} NonGreaseOfGrease(vs: seq<nat>)
    requires forall i :: 0 <= i < |vs| ==> IsGrease(vs[i])
    ensures NonGrease(vs) == []
  {
    if vs != [] { NonGreaseOfGrease(vs[1..]); }
  }

  lemma {:induction false} AllEqualPermutes(a: seq<nat>, b: seq<nat>)
    requires Permutes(a, b) && AllEqual(a)
    ensures a == b
  {
    PermutesLength(a, b);
    forall k | 0 <= k < |b| ensures b[k] == a[k] { PermutesMember(a, b, b[k]); }
  }

  /** Order does not matter to what is kept exactly when the GREASE-free list fits the
      capacity, or holds one value only: the bound in the canonicity theorem is needed. */
  lemma CapacityIsExact(vs: seq<nat>, cap: nat)
    requires cap > 0
    ensures (forall p :: Permutes(vs, p) ==> Permutes(Kept(vs, cap), Kept(p, cap)))
       <==> (|NonGrease(vs)| <= cap || AllEqual(NonGrease(vs)))
  {
    var cs := NonGrease(vs);
    if |cs| <= cap || AllEqual(cs) {
      forall p | Permutes(vs, p) ensures Permutes(Kept(vs, cap), Kept(p, cap)) {
        OrderIrrelevant(vs, p, cap);
      }
    } else {
      var p := OrderMatters(vs, cap);
      assert Permutes(vs, p) && !Permutes(Kept(vs, cap), Kept(p, cap));
    }
  }

  lemma OrderIrrelevant(vs: seq<nat>, p: seq<nat>, cap: nat)
    requires Permutes(vs, p) && (|NonGrease(vs)| <= cap || AllEqual(NonGrease(vs)))
    ensures Permutes(Kept(vs, cap), Kept(p, cap))
  {
    var cs := NonGrease(vs);
    NonGreaseMap(vs);
    NonGreaseMap(p);
    FlatMapPermutes(DROP_GREASE, vs, p);
    CiphersSame(cs, NonGrease(p), cap);
  }

  lemma OrderMatters(vs: seq<nat>, cap: nat) returns (p: seq<nat>)
    requires 0 < cap < |NonGrease(vs)| && !AllEqual(NonGrease(vs))
    ensures Permutes(vs, p) && !Permutes(Kept(vs, cap), Kept(p, cap))
  {
    var cs, gs := NonGrease(vs), Filter(GREASE, vs);
    NonGreaseFilter(vs);
    FilterPartition(CLEAN, GREASE, vs);
    var i, j := KeptAndDroppedDiffer(cs, cap);
    SwapChangesKept(cs, cap, i, j);
    var t := cs[i := cs[j]][j := cs[i]];
    p := t + gs;
    AppendPermutes(t, cs, gs);
    SwapClean(cs, i, j);
    CleanThenGrease(t, gs);
  }

  lemma AppendPermutes(t: seq<nat>, cs: seq<nat>, gs: seq<nat>)
    requires Permutes(cs, t)
    ensures Permutes(cs + gs, t + gs)
  {
    assert multiset(t + gs) == multiset(t) + multiset(gs);
    assert multiset(cs + gs) == multiset(cs) + multiset(gs);
  }

  lemma SwapClean(s: seq<nat>, i: nat, j: nat)
    requires i < |s| && j < |s| && forall k :: 0 <= k < |s| ==> CLEAN(s[k])
    ensures var t := s[i := s[j]][j := s[i]]; forall k :: 0 <= k < |t| ==> CLEAN(t[k])
  {
  }

  lemma CleanThenGrease(t: seq<nat>, gs: seq<nat>)
    requires (forall i :: 0 <= i < |t| ==> CLEAN(t[i])) && (forall i :: 0 <= i < |gs| ==> GREASE(gs[i]))
    ensures NonGrease(t + gs) == t
  {
    NonGreaseConcat(t, gs);
    NonGreaseOfGrease(gs);
    NonGreaseOfClean(t);
    assert t + [] == t;
  }
}
