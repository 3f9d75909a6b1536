/** Where the JA4 fingerprint stops being canonical: the condition of the canonicity theorem is
    exact.  Each part of it that fails gives two orders of the same hello and a hash under
    which their fingerprints differ. */
module Ja4Limits {
  import opened Wrappers
  import opened Bytes
  import opened Sorting
  import opened Ja4Parser
  import opened ClientHello
  import opened Ja4Build
  import opened Ja4Canonical

  // ----- different texts, different strings

  lemma FromNibbles(v: nat)
    requires v < 0x1_0000
    ensures v == 16 * (16 * (16 * (v / 16 / 16 / 16 % 16) + v / 16 / 16 % 16) + v / 16 % 16) + v % 16
  {
    var a, b := v / 16, v / 16 / 16;
    var c := b / 16;
    assert v == 16 * a + v % 16 && a == 16 * b + a % 16 && b == 16 * c + b % 16 && c < 16;
  }

  lemma HexCharInjective(c: int, d: int)
    requires 0 <= c < 16 && 0 <= d < 16 && HexChar(c) == HexChar(d)
    ensures c == d
  {
  }

  lemma Hex4Injective(v: nat, w: nat)
    requires v < 0x1_0000 && w < 0x1_0000 && Hex4(v) == Hex4(w)
    ensures v == w
  {
    var x, y := Hex4(v), Hex4(w);
    assert x[0] == y[0] && x[1] == y[1] && x[2] == y[2] && x[3] == y[3];
    HexCharInjective(v / 16 / 16 / 16 % 16, w / 16 / 16 / 16 % 16);
    HexCharInjective(v / 16 / 16 % 16, w / 16 / 16 % 16);
    HexCharInjective(v / 16 % 16, w / 16 % 16);
    HexCharInjective(v % 16, w % 16);
    FromNibbles(v);
    FromNibbles(w);
  }

  lemma {:induction false} HexItemsCons(v: nat, vs: seq<nat>)
    ensures HexItems([v] + vs) == [Hex4(v)] + HexItems(vs)
  {
    if vs == [] {
      assert [v] + vs == [v] && [v][..0] == [];
      assert HexItems([v]) == [] + [Hex4(v)];
    } else {
      var k := |vs| - 1;
      assert ([v] + vs)[..|vs|] == [v] + vs[..k];
      HexItemsCons(v, vs[..k]);
      Regroup([Hex4(v)], HexItems(vs[..k]), [Hex4(vs[k])]);
    }
  }

  lemma HexListCons(v: nat, vs: seq<nat>)
    requires vs != []
    ensures HexList([v] + vs) == Hex4(v) + [COMMA] + HexList(vs)
  {
    HexItemsCons(v, vs);
    JoinCons(Hex4(v), HexItems(vs), COMMA);
  }

  lemma HexListOne(v: nat)
    ensures HexList([v]) == Hex4(v)
  {
    HexItemsCons(v, []);
    assert [v] + [] == [v];
  }

  lemma SplitHead(x: seq<byte>, y: seq<byte>, s: seq<byte>, t: seq<byte>)
    requires |x| == |y| && x + s == y + t
    ensures x == y && s == t
  {
    assert x == (x + s)[..|x|] && y == (y + t)[..|y|];
    assert s == (x + s)[|x|..] && t == (y + t)[|y|..];
  }

  ghost predicate Short(vs: seq<nat>) { forall i :: 0 <= i < |vs| ==> vs[i] < 0x1_0000 }

  /** Lists of one length are told apart by their hexadecimal text. */
  lemma {:induction false} HexListInjective(a: seq<nat>, b: seq<nat>)
    requires |a| == |b| && Short(a) && Short(b) && HexList(a) == HexList(b)
    ensures a == b
  {
    if |a| == 1 {
      HexListOne(a[0]);
      HexListOne(b[0]);
      assert a == [a[0]] && b == [b[0]];
      Hex4Injective(a[0], b[0]);
    } else if |a| > 1 {
      var r, s := a[1..], b[1..];
      assert a == [a[0]] + r && b == [b[0]] + s;
      HexListCons(a[0], r);
      HexListCons(b[0], s);
      Regroup(Hex4(a[0]), [COMMA], HexList(r));
      Regroup(Hex4(b[0]), [COMMA], HexList(s));
      SplitHead(Hex4(a[0]), Hex4(b[0]), [COMMA] + HexList(r), [COMMA] + HexList(s));
      SplitHead([COMMA], [COMMA], HexList(r), HexList(s));
      Hex4Injective(a[0], b[0]);
      HexListInjective(r, s);
    }
  }

  lemma {:induction false} HexBytesFirst(d: seq<byte>)
    requires d != []
    ensures HexBytes(d)[0] == HexChar(d[0] / 16)
  {
    if |d| == 1 {
      assert d[..0] == [];
    } else {
      HexBytesFirst(d[..|d| - 1]);
    }
  }

  /** Some hash tells two texts apart in its first twelve digits. */
  lemma Separated(x: seq<byte>, y: seq<byte>) returns (sha: Sha)
    requires x != y
    ensures Sha12(sha, x) != Sha12(sha, y)
  {
    var low: Digest, high: Digest := seq(32, _ => 0), seq(32, _ => 255);
    sha := (t: seq<byte>) => if t == x then low else high;
    HexBytesFirst(low[..6]);
    HexBytesFirst(high[..6]);
  }

  /** Equal strings have equal parts. */
  lemma StringParts(sha: Sha, f: Facts, k: Facts)
    requires IsAlnum(f.alpnFirst) && IsAlnum(f.alpnLast) && IsAlnum(k.alpnFirst) && IsAlnum(k.alpnLast)
    requires Ja4String(sha, f) == Ja4String(sha, k)
    ensures PartA(f) == PartA(k) && PartB(sha, f.ciphers) == PartB(sha, k.ciphers)
    ensures PartC(sha, f.extensions, f.sigAlgs) == PartC(sha, k.extensions, k.sigAlgs)
  {
    PartAShape(f);
    PartAShape(k);
    SplitThree(PartA(f), PartB(sha, f.ciphers), PartC(sha, f.extensions, f.sigAlgs),
               PartA(k), PartB(sha, k.ciphers), PartC(sha, k.extensions, k.sigAlgs));
  }

  lemma SplitThree(a: seq<byte>, b: seq<byte>, c: seq<byte>, a': seq<byte>, b': seq<byte>, c': seq<byte>)
    requires |a| == |a'| && |b| == |b'|
    requires a + [UNDERSCORE] + b + [UNDERSCORE] + c == a' + [UNDERSCORE] + b' + [UNDERSCORE] + c'
    ensures a == a' && b == b' && c == c'
  {
    SplitHead(a + [UNDERSCORE] + b + [UNDERSCORE], a' + [UNDERSCORE] + b' + [UNDERSCORE], c, c');
    SplitHead(a + [UNDERSCORE] + b, a' + [UNDERSCORE] + b', [UNDERSCORE], [UNDERSCORE]);
    SplitHead(a + [UNDERSCORE], a' + [UNDERSCORE], b, b');
    SplitHead(a, a', [UNDERSCORE], [UNDERSCORE]);
  }

  lemma {:induction false} AlpnCharsAlnum(es: seq<Extension>, d: (int, int))
    requires IsAlnum(d.0) && IsAlnum(d.1)
    ensures IsAlnum(AlpnChars(es, d).0) && IsAlnum(AlpnChars(es, d).1)
  {
    if es != [] {
      OneStep(es[0], es[1..], 0, d);
      assert [es[0]] + es[1..] == es;
      AlpnCharsAlnum(es[1..], AlpnChars([es[0]], d));
    }
  }

  /** Equal fingerprints have equal parts. */
  lemma FingerprintParts(sha: Sha, h: Hello, g: Hello)
    requires h.Formed() && g.Formed() && Fingerprint(sha, h.Bytes()) == Fingerprint(sha, g.Bytes())
    ensures var f, k := Found(h), Found(g);
      && PartA(f) == PartA(k) && PartB(sha, f.ciphers) == PartB(sha, k.ciphers)
      && PartC(sha, f.extensions, f.sigAlgs) == PartC(sha, k.extensions, k.sigAlgs)
  {
    FingerprintOf(sha, h);
    FingerprintOf(sha, g);
    AlpnCharsAlnum(h.ExtList(), (ZERO, ZERO));
    AlpnCharsAlnum(g.ExtList(), (ZERO, ZERO));
    StringParts(sha, Found(h), Found(g));
  }

  lemma FingerprintOf(sha: Sha, h: Hello)
    requires h.Formed()
    ensures Fingerprint(sha, h.Bytes()) == Some(Ja4String(sha, Found(h)))
  {
    ParseInverts(h);
  }

  // ----- past the capacity

  lemma {:induction false} NonGreaseShort(vs: seq<nat>)
    requires Short(vs)
    ensures Short(NonGrease(vs))
  {
    if vs != [] { NonGreaseShort(vs[1..]); }
  }

  lemma Low16sShort(vs: seq<nat>)
    requires Short(vs)
    ensures Low16s(vs) == vs
  {
  }

  /** Lists that differ as multisets have different cipher texts. */
  lemma SortedTextsDiffer(a: seq<nat>, b: seq<nat>)
    requires |a| == |b| && Short(a) && Short(b) && !Permutes(a, b)
    ensures HexList(Sort(LEQ, Low16s(a))) != HexList(Sort(LEQ, Low16s(b)))
  {
    Low16sShort(a);
    Low16sShort(b);
    NumbersOrdered();
    SortFacts(LEQ, a);
    SortFacts(LEQ, b);
    var s, t := Sort(LEQ, a), Sort(LEQ, b);
    SortedShort(s, a);
    SortedShort(t, b);
    if HexList(s) == HexList(t) { HexListInjective(s, t); }
  }

  lemma SortedShort(s: seq<int>, a: seq<nat>)
    requires Permutes(s, a) && Short(a)
    ensures |s| == |a| && forall i :: 0 <= i < |s| ==> 0 <= s[i] < 0x1_0000
  {
    PermutesLength(s, a);
    forall i | 0 <= i < |s| ensures 0 <= s[i] < 0x1_0000 { PermutesMember(s, a, s[i]); }
  }

  /** The same hello with its cipher suites in another order. */
  function Reordered(h: Hello, p: seq<u16>): Hello { h.(ciphers := p) }

  lemma ReorderedFormed(h: Hello, p: seq<u16>)
    requires h.Formed() && |p| == |h.ciphers|
    ensures Reordered(h, p).Formed()
    ensures Found(Reordered(h, p)) == Found(h).(ciphers := Kept(p, MAX_CIPHERS))
  {
  }

  /** No hash sees the order of the cipher suites. */
  ghost predicate CipherBlind(h: Hello)
  {
    forall sha: Sha, p: seq<u16> :: Permutes(h.ciphers, p) ==>
      Fingerprint(sha, h.Bytes()) == Fingerprint(sha, Reordered(h, p).Bytes())
  }

  lemma KeptSame(sha: Sha, h: Hello, p: seq<u16>)
    requires h.Formed() && |p| == |h.ciphers| && Permutes(Kept(h.ciphers, MAX_CIPHERS), Kept(p, MAX_CIPHERS))
    ensures Fingerprint(sha, h.Bytes()) == Fingerprint(sha, Reordered(h, p).Bytes())
  {
    ReorderedFormed(h, p);
    ParseInverts(h);
    ParseInverts(Reordered(h, p));
    PermutesLength(Kept(h.ciphers, MAX_CIPHERS), Kept(p, MAX_CIPHERS));
    StringSame(sha, Found(h), Found(Reordered(h, p)));
  }

  lemma SeparatedLists(a: seq<nat>, b: seq<nat>) returns (sha: Sha)
    requires |a| == |b| && Short(a) && Short(b) && !Permutes(a, b)
    ensures PartB(sha, a) != PartB(sha, b)
  {
    SortedTextsDiffer(a, b);
    sha := Separated(HexList(Sort(LEQ, Low16s(a))), HexList(Sort(LEQ, Low16s(b))));
  }

  lemma KeptDiffer(h: Hello, p: seq<u16>) returns (sha: Sha)
    requires h.Formed() && |p| == |h.ciphers| && !Permutes(Kept(h.ciphers, MAX_CIPHERS), Kept(p, MAX_CIPHERS))
    requires |Kept(h.ciphers, MAX_CIPHERS)| == |Kept(p, MAX_CIPHERS)|
    ensures Fingerprint(sha, h.Bytes()) != Fingerprint(sha, Reordered(h, p).Bytes())
  {
    var g := Reordered(h, p);
    ReorderedFormed(h, p);
    NonGreaseShort(h.ciphers);
    NonGreaseShort(p);
    sha := SeparatedLists(Kept(h.ciphers, MAX_CIPHERS), Kept(p, MAX_CIPHERS));
    if Fingerprint(sha, h.Bytes()) == Fingerprint(sha, g.Bytes()) { FingerprintParts(sha, h, g); }
  }

  /** On the bytes: the order of the cipher suites never shows if and only if the GREASE-free
      list fits the capacity or repeats one value. */
  lemma CipherOrderIsExact(h: Hello)
    requires h.Formed()
    ensures CipherBlind(h) <==> |NonGrease(h.ciphers)| <= MAX_CIPHERS || AllEqual(NonGrease(h.ciphers))
  {
    var vs: seq<nat> := h.ciphers;
    if |NonGrease(vs)| <= MAX_CIPHERS || AllEqual(NonGrease(vs)) {
      forall sha: Sha, p: seq<u16> | Permutes(h.ciphers, p)
        ensures Fingerprint(sha, h.Bytes()) == Fingerprint(sha, Reordered(h, p).Bytes())
      {
        PermutesLength(h.ciphers, p);
        var q: seq<nat> := p;
        assert multiset(vs) == multiset(q);
        OrderIrrelevant(vs, q, MAX_CIPHERS);
        KeptSame(sha, h, p);
      }
    } else {
      var q := OrderMatters(vs, MAX_CIPHERS);
      SortedShort(q, vs);
      var p: seq<u16> := q;
      assert Permutes(h.ciphers, p);
      KeptLength(vs, q, MAX_CIPHERS);
      var sha := KeptDiffer(h, p);
    }
  }

  lemma KeptLength(vs: seq<nat>, q: seq<nat>, cap: nat)
    requires Permutes(vs, q)
    ensures |Kept(vs, cap)| == |Kept(q, cap)|
  {
    NonGreaseMap(vs);
    NonGreaseMap(q);
    FlatMapPermutes(DROP_GREASE, vs, q);
    PermutesLength(NonGrease(vs), NonGrease(q));
  }

  // ----- other orders of the extensions

  /** The same hello with its extensions in another order. */
  function Rearranged(h: Hello, q: seq<Extension>): Hello
  {
    h.(extensions := if h.extensions.None? then None else Some(q))
  }

  const BYTES: Extension -> seq<byte> := (e: Extension) => e.Bytes()

  lemma {:induction false} ExtsBytesMap(es: seq<Extension>)
    ensures ExtsBytes(es) == FlatMap(BYTES, es)
  {
    if es != [] { ExtsBytesMap(es[1..]); }
  }

  lemma RearrangedFormed(h: Hello, q: seq<Extension>)
    requires h.Formed() && Permutes(h.ExtList(), q)
    ensures Rearranged(h, q).Formed() && Rearranged(h, q).ExtList() == q
  {
    PermutesLength(h.ExtList(), q);
    if h.extensions.Some? {
      ExtsBytesMap(h.ExtList());
      ExtsBytesMap(q);
      FlatMapPermutes(BYTES, h.ExtList(), q);
      PermutesLength(ExtsBytes(h.ExtList()), ExtsBytes(q));
      forall i | 0 <= i < |q| ensures q[i].Formed() { PermutesMember(h.ExtList(), q, q[i]); }
    }
  }

  /** Two members of a list, and the others. */
  lemma PickTwo<T>(s: seq<T>, x: T, y: T) returns (r: seq<T>)
    requires x in s && y in s && x != y
    ensures multiset(s) == multiset{x} + multiset{y} + multiset(r)
  {
    var i :| 0 <= i < |s| && s[i] == x;
    var s' := s[..i] + s[i + 1..];
    AroundOne(s, i);
    MiddleFirst(s[..i], [x], s[i + 1..]);
    assert y in multiset(s');
    var j :| 0 <= j < |s'| && s'[j] == y;
    r := s'[..j] + s'[j + 1..];
    AroundOne(s', j);
    MiddleFirst(s'[..j], [y], s'[j + 1..]);
  }

  lemma TwoFirst<T>(s: seq<T>, x: T, y: T, r: seq<T>)
    requires multiset(s) == multiset{x} + multiset{y} + multiset(r)
    ensures Permutes(s, [x, y] + r) && Permutes(s, [y, x] + r)
  {
    assert multiset([x, y]) == multiset{x} + multiset{y} && multiset([y, x]) == multiset{x} + multiset{y};
    assert multiset([x, y] + r) == multiset([x, y]) + multiset(r);
    assert multiset([y, x] + r) == multiset([y, x]) + multiset(r);
  }

  lemma TwoOutside<T>(s: seq<T>, x: T, y: T, r: seq<T>)
    requires multiset(s) == multiset{x} + multiset{y} + multiset(r)
    ensures Permutes(s, [x] + r + [y]) && Permutes(s, [y] + r + [x])
  {
    assert multiset([x] + r + [y]) == multiset{x} + multiset(r) + multiset{y};
    assert multiset([y] + r + [x]) == multiset{y} + multiset(r) + multiset{x};
  }

  /** Two orders of the extensions of one hello. */
  ghost predicate Orders(h: Hello, p: seq<Extension>, q: seq<Extension>)
  {
    Permutes(h.ExtList(), p) && Permutes(h.ExtList(), q)
  }

  ghost predicate Differ(sha: Sha, h: Hello, p: seq<Extension>, q: seq<Extension>)
  {
    Fingerprint(sha, Rearranged(h, p).Bytes()) != Fingerprint(sha, Rearranged(h, q).Bytes())
  }

  /** The first and the last extension exchanged, or the first two. */
  lemma OutsideOrders(h: Hello, x: Extension, y: Extension) returns (r: seq<Extension>)
    requires h.Formed() && x in h.ExtList() && y in h.ExtList() && x != y
    ensures var p, q := [x] + r + [y], [y] + r + [x];
      && Orders(h, p, q) && Rearranged(h, p).Formed() && Rearranged(h, q).Formed()
      && Rearranged(h, p).ExtList() == p && Rearranged(h, q).ExtList() == q
  {
    r := PickTwo(h.ExtList(), x, y);
    TwoOutside(h.ExtList(), x, y, r);
    RearrangedFormed(h, [x] + r + [y]);
    RearrangedFormed(h, [y] + r + [x]);
  }

  lemma FrontOrders(h: Hello, x: Extension, y: Extension) returns (r: seq<Extension>)
    requires h.Formed() && x in h.ExtList() && y in h.ExtList() && x != y
    ensures var p, q := [x, y] + r, [y, x] + r;
      && Orders(h, p, q) && Rearranged(h, p).Formed() && Rearranged(h, q).Formed()
      && Rearranged(h, p).ExtList() == p && Rearranged(h, q).ExtList() == q
  {
    r := PickTwo(h.ExtList(), x, y);
    TwoFirst(h.ExtList(), x, y, r);
    RearrangedFormed(h, [x, y] + r);
    RearrangedFormed(h, [y, x] + r);
  }

  // ----- repeated versions and protocol lists: the last one counts

  lemma {:induction false} TopLast(es: seq<Extension>, vs: seq<u16>, d: nat)
    ensures TopVersion(es + [SupportedVersions(vs)], d) == MaxOf(NonGrease(vs))
  {
    var last := SupportedVersions(vs);
    if es == [] {
      assert es + [last] == [last] + [];
      OneStep(last, [], d, (ZERO, ZERO));
    } else {
      assert es + [last] == [es[0]] + (es[1..] + [last]);
      OneStep(es[0], es[1..] + [last], d, (ZERO, ZERO));
      TopLast(es[1..], vs, TopVersion([es[0]], d));
    }
  }

  lemma {:induction false} AlpnLast(es: seq<Extension>, names: seq<seq<byte>>, d: (int, int))
    requires names != [] && names[0] != []
    ensures AlpnChars(es + [Alpn(names)], d) == AlpnEnds(names[0])
  {
    var last := Alpn(names);
    if es == [] {
      assert es + [last] == [last] + [];
      OneStep(last, [], 0, d);
    } else {
      assert es + [last] == [es[0]] + (es[1..] + [last]);
      OneStep(es[0], es[1..] + [last], 0, d);
      AlpnLast(es[1..], names, AlpnChars([es[0]], d));
    }
  }

  lemma VersionInPartA(h: Hello)
    ensures PartA(Found(h))[1..3] == Shown(h.legacyVersion, TopVersion(h.ExtList(), 0))
  {
  }

  lemma AlpnInPartA(f: Facts)
    requires IsAlnum(f.alpnFirst) && IsAlnum(f.alpnLast)
    ensures PartA(f)[8] == f.alpnFirst && PartA(f)[9] == f.alpnLast
  {
  }

  /** Two supported_versions extensions anywhere in a hello that show different versions: under
      every hash two of its orders differ. */
  lemma RepeatedVersionsMatter(sha: Sha, h: Hello, vs: seq<u16>, ws: seq<u16>)
    returns (p: seq<Extension>, q: seq<Extension>)
    requires h.Formed() && SupportedVersions(vs) in h.ExtList() && SupportedVersions(ws) in h.ExtList()
    requires Shown(h.legacyVersion, MaxOf(NonGrease(vs))) != Shown(h.legacyVersion, MaxOf(NonGrease(ws)))
    ensures Orders(h, p, q) && Differ(sha, h, p, q)
  {
    var x, y := SupportedVersions(vs), SupportedVersions(ws);
    var r := OutsideOrders(h, x, y);
    p, q := [x] + r + [y], [y] + r + [x];
    TopLast([x] + r, ws, 0);
    TopLast([y] + r, vs, 0);
    VersionInPartA(Rearranged(h, p));
    VersionInPartA(Rearranged(h, q));
    if !Differ(sha, h, p, q) { FingerprintParts(sha, Rearranged(h, p), Rearranged(h, q)); }
  }

  /** The same for two ALPN extensions with different end characters. */
  lemma RepeatedAlpnMatters(sha: Sha, h: Hello, ms: seq<seq<byte>>, ns: seq<seq<byte>>)
    returns (p: seq<Extension>, q: seq<Extension>)
    requires h.Formed() && Alpn(ms) in h.ExtList() && Alpn(ns) in h.ExtList()
    requires ms != [] && ms[0] != [] && ns != [] && ns[0] != [] && AlpnEnds(ms[0]) != AlpnEnds(ns[0])
    ensures Orders(h, p, q) && Differ(sha, h, p, q)
  {
    var x, y := Alpn(ms), Alpn(ns);
    var r := OutsideOrders(h, x, y);
    p, q := [x] + r + [y], [y] + r + [x];
    AlpnLast([x] + r, ns, (ZERO, ZERO));
    AlpnLast([y] + r, ms, (ZERO, ZERO));
    AlpnInPartA(Found(Rearranged(h, p)));
    AlpnInPartA(Found(Rearranged(h, q)));
    if !Differ(sha, h, p, q) { FingerprintParts(sha, Rearranged(h, p), Rearranged(h, q)); }
  }

  // ----- the last part: types and signature algorithms

  function SchemeText(list: seq<byte>, sigs: seq<nat>): seq<byte>
  {
    list + (if sigs == [] then [] else [UNDERSCORE] + HexList(sigs))
  }

  lemma SchemeTextsDiffer(list: seq<byte>, a: seq<nat>, b: seq<nat>)
    requires |a| == |b| && Short(a) && Short(b) && a != b
    ensures SchemeText(list, a) != SchemeText(list, b)
  {
    if SchemeText(list, a) == SchemeText(list, b) {
      SplitHead(list, list, [UNDERSCORE] + HexList(a), [UNDERSCORE] + HexList(b));
      SplitHead([UNDERSCORE], [UNDERSCORE], HexList(a), HexList(b));
      HexListInjective(a, b);
    }
  }

  lemma {:induction false} HexListPlain(vs: seq<nat>)
    ensures UNDERSCORE !in HexList(vs) && (vs != [] ==> |HexList(vs)| == 5 * |vs| - 1)
  {
    if |vs| == 1 {
      HexListOne(vs[0]);
      assert vs == [vs[0]];
    } else if |vs| > 1 {
      assert vs == [vs[0]] + vs[1..];
      HexListCons(vs[0], vs[1..]);
      HexListPlain(vs[1..]);
    }
  }

  lemma HeadEnd(a: seq<byte>, s: seq<nat>)
    requires UNDERSCORE !in a
    ensures var x := SchemeText(a, s);
      && |a| <= |x| && x[..|a|] == a && (|a| < |x| ==> x[|a|] == UNDERSCORE)
      && forall i :: 0 <= i < |a| ==> x[i] != UNDERSCORE
  {
    var x := SchemeText(a, s);
    forall i | 0 <= i < |a| ensures x[i] != UNDERSCORE { assert x[i] == a[i]; }
  }

  /** The text up to the first underscore is the list. */
  lemma SchemeTextHead(a: seq<byte>, b: seq<byte>, s: seq<nat>, t: seq<nat>)
    requires UNDERSCORE !in a && UNDERSCORE !in b && SchemeText(a, s) == SchemeText(b, t)
    ensures a == b
  {
    HeadEnd(a, s);
    HeadEnd(b, t);
  }

  lemma TypeTextsDiffer(a: seq<nat>, b: seq<nat>, s: seq<nat>, t: seq<nat>)
    requires a != [] && b != [] && Short(a) && Short(b) && !Permutes(a, b)
    ensures SchemeText(HexList(Sort(LEQ, Low16s(a))), s) != SchemeText(HexList(Sort(LEQ, Low16s(b))), t)
  {
    Low16sShort(a);
    Low16sShort(b);
    NumbersOrdered();
    SortFacts(LEQ, a);
    SortFacts(LEQ, b);
    SortedShort(Sort(LEQ, a), a);
    SortedShort(Sort(LEQ, b), b);
    HexListPlain(Sort(LEQ, a));
    HexListPlain(Sort(LEQ, b));
    if SchemeText(HexList(Sort(LEQ, a)), s) == SchemeText(HexList(Sort(LEQ, b)), t) {
      SchemeTextHead(HexList(Sort(LEQ, a)), HexList(Sort(LEQ, b)), s, t);
      HexListInjective(Sort(LEQ, a), Sort(LEQ, b));
    }
  }

  /** A hash that starts with a digit other than zero. */
  lemma NotZeros(text: seq<byte>) returns (sha: Sha)
    ensures Sha12(sha, text) != Zeros12()
  {
    var high: Digest := seq(32, _ => 255);
    sha := (t: seq<byte>) => high;
    HexBytesFirst(high[..6]);
  }

  /** Different hashed types: some hash tells the last parts apart. */
  lemma TypesTold(a: seq<nat>, b: seq<nat>, s: seq<nat>, t: seq<nat>) returns (sha: Sha)
    requires Short(a) && Short(b) && !Permutes(Hashed(a), Hashed(b))
    ensures PartC(sha, a, s) != PartC(sha, b, t)
  {
    var x, y := Hashed(a), Hashed(b);
    HashedShort(a);
    HashedShort(b);
    var textX, textY := SchemeText(HexList(Sort(LEQ, Low16s(x))), s), SchemeText(HexList(Sort(LEQ, Low16s(y))), t);
    if x == [] {
      sha := NotZeros(textY);
    } else if y == [] {
      sha := NotZeros(textX);
    } else {
      TypeTextsDiffer(x, y, s, t);
      sha := Separated(textX, textY);
    }
  }

  /** Different signature algorithms: some hash tells the last parts apart. */
  lemma SchemesTold(a: seq<nat>, s: seq<nat>, t: seq<nat>) returns (sha: Sha)
    requires Hashed(a) != [] && |s| == |t| && Short(s) && Short(t) && s != t
    ensures PartC(sha, a, s) != PartC(sha, a, t)
  {
    var list := HexList(Sort(LEQ, Low16s(Hashed(a))));
    SchemeTextsDiffer(list, s, t);
    sha := Separated(SchemeText(list, s), SchemeText(list, t));
  }

  lemma {:induction false} HashedShort(vs: seq<nat>)
    requires Short(vs)
    ensures Short(Hashed(vs))
  {
    if vs != [] { HashedShort(vs[..|vs| - 1]); }
  }

  lemma {:induction false} TypesShort(es: seq<Extension>)
    ensures Short(Types(es))
  {
    if es != [] { TypesShort(es[1..]); }
  }

  lemma {:induction false} SchemesShort(es: seq<Extension>)
    ensures Short(Schemes(es))
  {
    if es != [] { SchemesShort(es[1..]); }
  }

  lemma FoundShort(h: Hello)
    ensures Short(Found(h).extensions) && Short(Found(h).sigAlgs)
  {
    TypesShort(h.ExtList());
    NonGreaseShort(Types(h.ExtList()));
    SchemesShort(h.ExtList());
    NonGreaseShort(Schemes(h.ExtList()));
  }

  lemma {:induction false} ListsConcat(a: seq<Extension>, b: seq<Extension>)
    ensures Schemes(a + b) == Schemes(a) + Schemes(b) && Types(a + b) == Types(a) + Types(b)
  {
    if a == [] {
      assert a + b == b;
    } else {
      assert (a + b)[1..] == a[1..] + b && (a + b)[0] == a[0];
      ListsConcat(a[1..], b);
      Regroup(if a[0].SignatureAlgorithms? then a[0].schemes else [], Schemes(a[1..]), Schemes(b));
      Regroup([a[0].Type()], Types(a[1..]), Types(b));
    }
  }

  lemma OneList(e: Extension)
    ensures Types([e]) == [e.Type()] && Schemes([e]) == if e.SignatureAlgorithms? then e.schemes else []
  {
    var one: seq<Extension> := [e];
    assert one[1..] == [];
    assert Schemes(one) == (if e.SignatureAlgorithms? then e.schemes else []) + [];
  }

  // ----- signature algorithms

  lemma TwoLists(x: Extension, y: Extension, r: seq<Extension>)
    requires x.SignatureAlgorithms? && y.SignatureAlgorithms?
    ensures Schemes([x, y] + r) == x.schemes + (y.schemes + Schemes(r)) && Types([x, y] + r) == [13, 13] + Types(r)
  {
    assert [x, y] + r == [x] + ([y] + r);
    ListsConcat([x], [y] + r);
    ListsConcat([y], r);
    OneList(x);
    OneList(y);
    assert [13] + ([13] + Types(r)) == [13, 13] + Types(r);
  }

  lemma SchemesOfTwo(ss: seq<u16>, ts: seq<u16>, r: seq<Extension>)
    ensures NonGrease(Schemes([SignatureAlgorithms(ss), SignatureAlgorithms(ts)] + r))
         == NonGrease(ss) + NonGrease(ts) + NonGrease(Schemes(r))
  {
    TwoLists(SignatureAlgorithms(ss), SignatureAlgorithms(ts), r);
    NonGreaseThree(ss, ts, Schemes(r));
  }

  lemma TypesOfTwo(ss: seq<u16>, ts: seq<u16>, r: seq<Extension>)
    ensures NonGrease(Types([SignatureAlgorithms(ss), SignatureAlgorithms(ts)] + r)) == [13, 13] + NonGrease(Types(r))
  {
    TwoLists(SignatureAlgorithms(ss), SignatureAlgorithms(ts), r);
    NonGreaseConcat([13, 13], Types(r));
    NonGreaseOfClean([13, 13]);
  }

  lemma NonGreaseThree(a: seq<nat>, b: seq<nat>, c: seq<nat>)
    ensures NonGrease(a + (b + c)) == NonGrease(a) + NonGrease(b) + NonGrease(c)
  {
    NonGreaseConcat(a, b + c);
    NonGreaseConcat(b, c);
    Regroup(NonGrease(a), NonGrease(b), NonGrease(c));
  }

  lemma {:induction false} HashedKeeps(vs: seq<nat>, x: nat)
    requires x in vs && x != 0 && x != 16
    ensures x in Hashed(vs)
  {
    var k := |vs| - 1;
    assert vs == vs[..k] + [vs[k]];
    if vs[k] != x { HashedKeeps(vs[..k], x); }
  }

  /** What is kept of a list starts with what is kept of its front. */
  lemma FrontsDiffer(a: seq<nat>, b: seq<nat>, r: seq<nat>, n: nat)
    requires |a| == |b| && Take(a, n) != Take(b, n)
    ensures Take(a + r, n) != Take(b + r, n)
  {
    TakeConcat(a, r, n);
    TakeConcat(b, r, n);
    var m := |Take(a, n)|;
    assert Take(a + r, n)[..m] == Take(a, n) && Take(b + r, n)[..m] == Take(b, n);
  }

  /** Two signature_algorithms extensions whose lists do not commute, as far as they are kept:
      some hash tells two orders apart. */
  lemma RepeatedSchemesMatter(h: Hello, ss: seq<u16>, ts: seq<u16>)
    returns (sha: Sha, p: seq<Extension>, q: seq<Extension>)
    requires h.Formed() && SignatureAlgorithms(ss) in h.ExtList() && SignatureAlgorithms(ts) in h.ExtList()
    requires !Commute(NonGrease(ss), NonGrease(ts), MAX_SIG_ALGS)
    ensures Orders(h, p, q) && Differ(sha, h, p, q)
  {
    var x, y := SignatureAlgorithms(ss), SignatureAlgorithms(ts);
    var r := FrontOrders(h, x, y);
    p, q := [x, y] + r, [y, x] + r;
    var hp, hq := Rearranged(h, p), Rearranged(h, q);
    var f, k := Found(hp), Found(hq);
    SchemesOfTwo(ss, ts, r);
    SchemesOfTwo(ts, ss, r);
    TypesOfTwo(ss, ts, r);
    TypesOfTwo(ts, ss, r);
    FrontsDiffer(NonGrease(ss) + NonGrease(ts), NonGrease(ts) + NonGrease(ss), NonGrease(Schemes(r)), MAX_SIG_ALGS);
    FoundShort(hp);
    FoundShort(hq);
    assert f.extensions[0] == 13;
    HashedKeeps(f.extensions, 13);
    sha := SchemesTold(f.extensions, f.sigAlgs, k.sigAlgs);
    if !Differ(sha, h, p, q) { FingerprintParts(sha, hp, hq); }
  }

  // ----- types past the capacity

  lemma TypesOutside(x: Extension, r: seq<Extension>, y: Extension)
    requires !IsGrease(x.Type()) && !IsGrease(y.Type())
    ensures NonGrease(Types([x] + r + [y])) == [x.Type()] + NonGrease(Types(r)) + [y.Type()]
  {
    ListsConcat([x] + r, [y]);
    ListsConcat([x], r);
    OneList(x);
    OneList(y);
    NonGreaseConcat([x.Type()] + Types(r), [y.Type()]);
    NonGreaseConcat([x.Type()], Types(r));
    NonGreaseOfClean([x.Type()]);
    NonGreaseOfClean([y.Type()]);
  }

  lemma HashedOfFirst(x: nat, ts: seq<nat>, y: nat, cap: nat)
    requires 0 < cap <= |ts| + 1
    ensures Hashed(Take([x] + ts + [y], cap)) == HASHED(x) + Hashed(ts[..cap - 1])
  {
    assert Take([x] + ts + [y], cap) == [x] + ts[..cap - 1];
    HashedMap([x] + ts[..cap - 1]);
    HashedMap(ts[..cap - 1]);
    FlatMapConcat(HASHED, [x], ts[..cap - 1]);
    FlatMapOne(HASHED, x);
  }

  /** What the hash sees of an order that has x first and y past the capacity. */
  lemma KeptOutside(h: Hello, x: Extension, r: seq<Extension>, y: Extension) returns (rest: seq<nat>)
    requires h.ExtList() == [x] + r + [y] && !IsGrease(x.Type()) && !IsGrease(y.Type())
    requires |NonGrease(Types(h.ExtList()))| > MAX_EXTENSIONS
    ensures |NonGrease(Types(r))| >= MAX_EXTENSIONS - 1
    ensures rest == Hashed(NonGrease(Types(r))[..MAX_EXTENSIONS - 1])
    ensures Hashed(Found(h).extensions) == HASHED(x.Type()) + rest
  {
    TypesOutside(x, r, y);
    HashedOfFirst(x.Type(), NonGrease(Types(r)), y.Type(), MAX_EXTENSIONS);
    rest := Hashed(NonGrease(Types(r))[..MAX_EXTENSIONS - 1]);
  }

  lemma TagsDiffer(x: nat, y: nat, r: seq<nat>)
    requires HASHED(x) != HASHED(y)
    ensures !Permutes(HASHED(x) + r, HASHED(y) + r)
  {
    var a: seq<nat>, b: seq<nat> := HASHED(x), HASHED(y);
    assert multiset(a + r) == multiset(a) + multiset(r) && multiset(b + r) == multiset(b) + multiset(r);
    assert multiset(a) == multiset(a + r) - multiset(r) && multiset(b) == multiset(b + r) - multiset(r);
    assert if a == [] then multiset(b)[y] == 1 else multiset(a)[x] == 1 && multiset(b)[x] == 0;
  }

  /** More types than the parser keeps, and two that the hash would show differently: some
      hash tells two orders apart. */
  lemma DroppedTypesMatter(h: Hello, x: Extension, y: Extension)
    returns (sha: Sha, p: seq<Extension>, q: seq<Extension>)
    requires h.Formed() && x in h.ExtList() && y in h.ExtList() && |NonGrease(Types(h.ExtList()))| > MAX_EXTENSIONS
    requires !IsGrease(x.Type()) && !IsGrease(y.Type()) && HASHED(x.Type()) != HASHED(y.Type())
    ensures Orders(h, p, q) && Differ(sha, h, p, q)
  {
    var r := OutsideOrders(h, x, y);
    p, q := [x] + r + [y], [y] + r + [x];
    var hp, hq := Rearranged(h, p), Rearranged(h, q);
    var f, k := Found(hp), Found(hq);
    SameCount(h.ExtList(), p);
    SameCount(h.ExtList(), q);
    var rest := KeptOutside(hp, x, r, y);
    var rest' := KeptOutside(hq, y, r, x);
    TagsDiffer(x.Type(), y.Type(), rest);
    FoundShort(hp);
    FoundShort(hq);
    sha := TypesTold(f.extensions, k.extensions, f.sigAlgs, k.sigAlgs);
    if !Differ(sha, h, p, q) { FingerprintParts(sha, hp, hq); }
  }

  lemma SameCount(a: seq<Extension>, b: seq<Extension>)
    requires Permutes(a, b)
    ensures |NonGrease(Types(a))| == |NonGrease(Types(b))|
  {
    CoresKeepTypes(a);
    CoresKeepTypes(b);
    FlatMapPermutes(KEEP, a, b);
    CodesAt(Cores(a));
    CodesAt(Cores(b));
    PermutesLength(Cores(a), Cores(b));
  }

  // ----- the exact condition

  /** No hash sees the order of the cipher suites or of the extensions. */
  ghost predicate OrderBlind(h: Hello)
  {
    forall sha: Sha, p: seq<u16>, q: seq<Extension> :: Permutes(h.ciphers, p) && Permutes(h.ExtList(), q) ==>
      Fingerprint(sha, h.Bytes()) == Fingerprint(sha, Rearranged(Reordered(h, p), q).Bytes())
  }

  /** No hash tells the hello from any other of the same client, GREASE included. */
  ghost predicate ClientBlind(h: Hello)
  {
    forall sha: Sha, g: Hello :: g.Formed() && SameClient(h, g) ==>
      Fingerprint(sha, h.Bytes()) == Fingerprint(sha, g.Bytes())
  }

  lemma BlindTo(h: Hello, sha: Sha, p: seq<u16>, q: seq<Extension>)
    requires OrderBlind(h) && Permutes(h.ciphers, p) && Permutes(h.ExtList(), q)
    ensures Fingerprint(sha, h.Bytes()) == Fingerprint(sha, Rearranged(Reordered(h, p), q).Bytes())
  {
  }

  lemma BlindToBoth(h: Hello, sha: Sha, p: seq<Extension>, q: seq<Extension>)
    requires OrderBlind(h) && Orders(h, p, q)
    ensures !Differ(sha, h, p, q)
  {
    assert Reordered(h, h.ciphers) == h;
    BlindTo(h, sha, h.ciphers, p);
    BlindTo(h, sha, h.ciphers, q);
  }

  /** Every core comes from an extension that is not GREASE. */
  lemma {:induction false} CoreSource(es: seq<Extension>, c: Core) returns (e: Extension)
    requires c in Cores(es)
    ensures e in es && !IsGrease(e.Type()) && CoreOf(e) == c
  {
    CoresCons(es);
    if !IsGrease(es[0].Type()) && CoreOf(es[0]) == c {
      e := es[0];
    } else {
      assert !IsGrease(es[0].Type()) ==> Cores(es) == [CoreOf(es[0])] + Cores(es[1..]);
      e := CoreSource(es[1..], c);
    }
  }

  lemma BlindVersions(h: Hello)
    requires h.Formed() && OrderBlind(h)
    ensures VersionsAgree(h.legacyVersion, Cores(h.ExtList()))
  {
    var es, legacy := h.ExtList(), h.legacyVersion;
    forall x, y | x in Cores(es) && y in Cores(es) && x.Versions? && y.Versions?
      ensures Shown(legacy, x.top) == Shown(legacy, y.top)
    {
      var d := CoreSource(es, x);
      var e := CoreSource(es, y);
      if Shown(legacy, x.top) != Shown(legacy, y.top) {
        var sha: Sha := NotZeros([]);
        var p, q := RepeatedVersionsMatter(sha, h, d.versions, e.versions);
        BlindToBoth(h, sha, p, q);
      }
    }
  }

  lemma BlindAlpn(h: Hello)
    requires h.Formed() && OrderBlind(h)
    ensures AlpnsAgree(Cores(h.ExtList()))
  {
    var es := h.ExtList();
    forall x, y | x in Cores(es) && y in Cores(es) && Named(x) && Named(y)
      ensures AlpnEnds(x.names[0]) == AlpnEnds(y.names[0])
    {
      var d := CoreSource(es, x);
      var e := CoreSource(es, y);
      if AlpnEnds(x.names[0]) != AlpnEnds(y.names[0]) {
        var sha: Sha := NotZeros([]);
        var p, q := RepeatedAlpnMatters(sha, h, d.names, e.names);
        BlindToBoth(h, sha, p, q);
      }
    }
  }

  lemma BlindSchemes(h: Hello)
    requires h.Formed() && OrderBlind(h)
    ensures SchemesAgree(Cores(h.ExtList()))
  {
    var es := h.ExtList();
    forall x, y | x in Cores(es) && y in Cores(es) && x.Sigs? && y.Sigs?
      ensures Commute(x.schemes, y.schemes, MAX_SIG_ALGS)
    {
      var d := CoreSource(es, x);
      var e := CoreSource(es, y);
      if !Commute(x.schemes, y.schemes, MAX_SIG_ALGS) {
        var sha, p, q := RepeatedSchemesMatter(h, d.schemes, e.schemes);
        BlindToBoth(h, sha, p, q);
      }
    }
  }

  lemma BlindTypes(h: Hello)
    requires h.Formed() && OrderBlind(h)
    ensures TypesAgree(Cores(h.ExtList()))
  {
    var es := h.ExtList();
    CoresKeepTypes(es);
    CodesAt(Cores(es));
    if |Cores(es)| > MAX_EXTENSIONS {
      forall x, y | x in Cores(es) && y in Cores(es) ensures HASHED(x.Code()) == HASHED(y.Code()) {
        SameInHash(h, x, y);
      }
    }
  }

  lemma SameInHash(h: Hello, x: Core, y: Core)
    requires h.Formed() && OrderBlind(h) && |NonGrease(Types(h.ExtList()))| > MAX_EXTENSIONS
    requires x in Cores(h.ExtList()) && y in Cores(h.ExtList())
    ensures HASHED(x.Code()) == HASHED(y.Code())
  {
    var d := CoreSource(h.ExtList(), x);
    var e := CoreSource(h.ExtList(), y);
    if HASHED(d.Type()) != HASHED(e.Type()) {
      var sha, p, q := DroppedTypesMatter(h, d, e);
      BlindToBoth(h, sha, p, q);
    }
  }

  lemma Unmoved(h: Hello)
    ensures Rearranged(h, h.ExtList()) == h
  {
  }

  lemma BlindCiphers(h: Hello)
    requires h.Formed() && OrderBlind(h)
    ensures CipherBlind(h)
  {
    forall sha: Sha, p: seq<u16> | Permutes(h.ciphers, p)
      ensures Fingerprint(sha, h.Bytes()) == Fingerprint(sha, Reordered(h, p).Bytes())
    {
      BlindTo(h, sha, p, h.ExtList());
      Unmoved(Reordered(h, p));
    }
  }

  /** A reordered hello is formed and of the same client. */
  lemma ClientBlindIsOrderBlind(h: Hello)
    requires h.Formed() && ClientBlind(h)
    ensures OrderBlind(h)
  {
    forall sha: Sha, p: seq<u16>, q: seq<Extension> | Permutes(h.ciphers, p) && Permutes(h.ExtList(), q)
      ensures Fingerprint(sha, h.Bytes()) == Fingerprint(sha, Rearranged(Reordered(h, p), q).Bytes())
    {
      PermutesLength(h.ciphers, p);
      ReorderedFormed(h, p);
      RearrangedFormed(Reordered(h, p), q);
      ReorderedIsSame(h, Rearranged(Reordered(h, p), q));
    }
  }

  /** The condition of the canonicity theorem is exact, on the bytes of every well-formed hello:
      no hash sees order, and no hash sees order or GREASE, if and only if it holds. */
  lemma CanonicalIsExact(h: Hello)
    requires h.Formed()
    ensures OrderBlind(h) <==> Agrees(h)
    ensures ClientBlind(h) <==> Agrees(h)
  {
    if Agrees(h) {
      forall sha: Sha, g: Hello | g.Formed() && SameClient(h, g)
        ensures Fingerprint(sha, h.Bytes()) == Fingerprint(sha, g.Bytes())
      {
        Canonical(sha, h, g);
      }
    }
    if ClientBlind(h) { ClientBlindIsOrderBlind(h); }
    if OrderBlind(h) {
      BlindCiphers(h);
      CipherOrderIsExact(h);
      BlindVersions(h);
      BlindAlpn(h);
      BlindSchemes(h);
      BlindTypes(h);
    }
  }
}
