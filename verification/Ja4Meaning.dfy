/** What a JA4 fingerprint says of a ClientHello, read back from its characters. */
module Ja4Meaning {
  import opened Wrappers
  import opened Bytes
  import opened Numerals
  import opened Sorting
  import opened Ja4Parser
  import opened ClientHello
  import opened Ja4Build
  import opened Ja4Canonical
  import opened Ja4Limits

  // ----- the version

  /** The text of a version. */
  function VersionText(v: nat): string
  {
    match v
    case 0x0304 => "13"
    case 0x0303 => "12"
    case 0x0302 => "11"
    case 0x0301 => "10"
    case 0x0300 => "s3"
    case 0x0002 => "s2"
    case 0xfeff => "d1"
    case 0xfefd => "d2"
    case 0xfefc => "d3"
    case _ => "00"
  }

  lemma VersionCodeText(v: nat)
    ensures VersionCode(v) == Ascii(VersionText(v))
  {
    assert Ascii("13") == [49, 51] && Ascii("12") == [49, 50] && Ascii("11") == [49, 49] && Ascii("10") == [49, 48];
    assert Ascii("s3") == [115, 51] && Ascii("s2") == [115, 50] && Ascii("00") == [48, 48];
    assert Ascii("d1") == [100, 49] && Ascii("d2") == [100, 50] && Ascii("d3") == [100, 51];
  }

  /** The greatest of the values that are not GREASE, 0 without one. */
  ghost predicate IsTop(vs: seq<nat>, top: nat)
  {
    && (forall v :: v in vs && !IsGrease(v) ==> v <= top)
    && (top == 0 || (top in vs && !IsGrease(top)))
  }

  lemma {:induction false} NonGreaseMember(vs: seq<nat>, v: nat)
    ensures v in NonGrease(vs) <==> v in vs && !IsGrease(v)
  {
    if vs != [] {
      NonGreaseMember(vs[1..], v);
      assert vs == [vs[0]] + vs[1..];
    }
  }

  lemma TopIsMax(vs: seq<nat>)
    ensures IsTop(vs, MaxOf(NonGrease(vs)))
  {
    var ng := NonGrease(vs);
    forall v | v in vs && !IsGrease(v) ensures v <= MaxOf(ng) {
      NonGreaseMember(vs, v);
      assert v in ng;
    }
    if ng != [] { NonGreaseMember(vs, MaxOf(ng)); }
  }

  /** The last supported_versions extension. */
  ghost predicate LastVersions(es: seq<Extension>, i: nat)
  {
    && i < |es| && es[i].SupportedVersions?
    && forall j :: i < j < |es| ==> !es[j].SupportedVersions?
  }

  ghost predicate NoVersions(es: seq<Extension>) { forall j :: 0 <= j < |es| ==> !es[j].SupportedVersions? }

  /** The version shown: the top of the last supported_versions extension, or the legacy one when
      there is none or it names nothing. */
  ghost predicate IsVersion(h: Hello, v: nat)
  {
    var es := h.ExtList();
    || (NoVersions(es) && v == h.legacyVersion)
    || exists i: nat, top: nat :: LastVersions(es, i) && IsTop(es[i].versions, top)
                                  && v == if top != 0 then top else h.legacyVersion
  }

  lemma {:induction false} TopVersionIs(es: seq<Extension>, d: nat)
    ensures (NoVersions(es) && TopVersion(es, d) == d)
         || exists i: nat :: LastVersions(es, i) && TopVersion(es, d) == MaxOf(NonGrease(es[i].versions))
  {
    if es != [] {
      var n, last := |es| - 1, es[|es| - 1];
      assert es == es[..n] + [last];
      TopOfLast(es[..n], last, d);
      if last.SupportedVersions? {
        assert LastVersions(es, n);
      } else {
        TopVersionIs(es[..n], d);
        if i: nat :| LastVersions(es[..n], i) && TopVersion(es[..n], d) == MaxOf(NonGrease(es[..n][i].versions)) {
          assert LastVersions(es, i);
        }
      }
    }
  }

  lemma {:induction false} TopOfLast(es: seq<Extension>, last: Extension, d: nat)
    ensures TopVersion(es + [last], d)
         == if last.SupportedVersions? then MaxOf(NonGrease(last.versions)) else TopVersion(es, d)
  {
    if es == [] {
      assert es + [last] == [last] + [];
      OneStep(last, [], d, (ZERO, ZERO));
    } else {
      assert es + [last] == [es[0]] + (es[1..] + [last]) && es == [es[0]] + es[1..];
      OneStep(es[0], es[1..] + [last], d, (ZERO, ZERO));
      OneStep(es[0], es[1..], d, (ZERO, ZERO));
      TopOfLast(es[1..], last, TopVersion([es[0]], d));
    }
  }

  lemma ShownIsVersion(h: Hello)
    ensures IsVersion(h, if TopVersion(h.ExtList(), 0) != 0 then TopVersion(h.ExtList(), 0) else h.legacyVersion)
  {
    var es := h.ExtList();
    TopVersionIs(es, 0);
    if i: nat :| LastVersions(es, i) && TopVersion(es, 0) == MaxOf(NonGrease(es[i].versions)) {
      TopIsMax(es[i].versions);
    }
  }

  // ----- the protocol

  predicate Alphanumeric(c: byte)
  {
    '0' as int <= c <= '9' as int || 'A' as int <= c <= 'Z' as int || 'a' as int <= c <= 'z' as int
  }

  ghost predicate NamesProtocol(e: Extension) { e.Alpn? && e.names != [] && e.names[0] != [] }

  /** The last ALPN extension that names a protocol. */
  ghost predicate LastProtocol(es: seq<Extension>, i: nat)
  {
    i < |es| && NamesProtocol(es[i]) && forall j :: i < j < |es| ==> !NamesProtocol(es[j])
  }

  ghost predicate NoProtocol(es: seq<Extension>) { forall j :: 0 <= j < |es| ==> !NamesProtocol(es[j]) }

  /** A name's two characters: its end bytes, or the high digit of the first and the low digit
      of the last. */
  ghost predicate EndsShown(name: seq<byte>, x: byte, y: byte)
    requires name != []
  {
    var a, b := name[0], name[|name| - 1];
    if Alphanumeric(a) && Alphanumeric(b) then x == a && y == b
    else exists u: byte, v: byte :: HexPair(x, u, a) && HexPair(v, y, b)
  }

  lemma EndsAreShown(name: seq<byte>)
    requires name != []
    ensures EndsShown(name, AlpnEnds(name).0, AlpnEnds(name).1)
  {
    var a, b := name[0], name[|name| - 1];
    HexChars(a);
    HexChars(b);
  }

  lemma HexChars(v: byte)
    ensures HexPair(HexChar(v / 16), HexChar(v % 16), v)
  {
  }

  lemma {:induction false} AlpnCharsAre(es: seq<Extension>, d: (int, int))
    ensures (NoProtocol(es) && AlpnChars(es, d) == d)
         || exists i: nat :: LastProtocol(es, i) && AlpnChars(es, d) == AlpnEnds(es[i].names[0])
  {
    if es != [] {
      var n, last := |es| - 1, es[|es| - 1];
      assert es == es[..n] + [last];
      CharsOfLast(es[..n], last, d);
      if NamesProtocol(last) {
        assert LastProtocol(es, n);
      } else {
        AlpnCharsAre(es[..n], d);
        if i: nat :| LastProtocol(es[..n], i) && AlpnChars(es[..n], d) == AlpnEnds(es[..n][i].names[0]) {
          assert LastProtocol(es, i);
        }
      }
    }
  }

  lemma {:induction false} CharsOfLast(es: seq<Extension>, last: Extension, d: (int, int))
    ensures AlpnChars(es + [last], d) == if NamesProtocol(last) then AlpnEnds(last.names[0]) else AlpnChars(es, d)
  {
    if es == [] {
      assert es + [last] == [last] + [];
      OneStep(last, [], 0, d);
    } else {
      assert es + [last] == [es[0]] + (es[1..] + [last]) && es == [es[0]] + es[1..];
      OneStep(es[0], es[1..] + [last], 0, d);
      OneStep(es[0], es[1..], 0, d);
      CharsOfLast(es[1..], last, AlpnChars([es[0]], d));
    }
  }

  ghost predicate ProtocolShown(es: seq<Extension>, x: byte, y: byte)
  {
    || (NoProtocol(es) && x == '0' as int && y == '0' as int)
    || exists i: nat :: LastProtocol(es, i) && EndsShown(es[i].names[0], x, y)
  }

  lemma ProtocolIsShown(es: seq<Extension>)
    ensures var (x, y) := AlpnChars(es, (ZERO, ZERO)); 0 <= x < 256 && 0 <= y < 256 && ProtocolShown(es, x, y)
  {
    AlpnCharsAlnum(es, (ZERO, ZERO));
    AlpnCharsAre(es, (ZERO, ZERO));
    if i: nat :| LastProtocol(es, i) && AlpnChars(es, (ZERO, ZERO)) == AlpnEnds(es[i].names[0]) {
      EndsAreShown(es[i].names[0]);
    }
  }

  // ----- the first part

  /** Two decimal digits that read as n. */
  ghost predicate TwoDigits(s: seq<byte>, n: nat) { |s| == 2 && IsNumeral(s, 10) && Value(s, 10) == n }

  lemma CountReads(n: nat)
    ensures TwoDigits(Count99(n), Min(n, 99))
  {
    var m := Min(n, 99);
    var s := [48 + m / 10, 48 + m % 10];
    assert s[..1] == [48 + m / 10] && s[..1][..0] == [];
    assert Value(s[..1], 10) == m / 10;
  }

  /** The text of the version. */
  ghost predicate VersionShown(h: Hello, s: seq<byte>) { exists v :: IsVersion(h, v) && s == Ascii(VersionText(v)) }

  lemma VersionIsShown(h: Hello)
    ensures var top := TopVersion(h.ExtList(), 0);
      VersionShown(h, VersionCode(if top != 0 then top else h.legacyVersion))
  {
    var top := TopVersion(h.ExtList(), 0);
    ShownIsVersion(h);
    VersionCodeText(if top != 0 then top else h.legacyVersion);
  }

  /** What the first ten characters say. */
  ghost predicate FirstPart(h: Hello, s: seq<byte>)
    requires |s| == 10
  {
    var es := h.ExtList();
    && s[0] == 't' as int
    && VersionShown(h, s[1..3])
    && s[3] == (if exists i :: 0 <= i < |es| && es[i].ServerName? then 'd' else 'i') as int
    && TwoDigits(s[4..6], Min(|NonGrease(h.ciphers)|, 99)) && TwoDigits(s[6..8], Min(|NonGrease(Types(es))|, 99))
    && ProtocolShown(es, s[8], s[9])
  }

  lemma ServerNameOffered(es: seq<Extension>)
    requires forall i :: 0 <= i < |es| ==> es[i].Formed()
    ensures Offers(es, 0) <==> exists i :: 0 <= i < |es| && es[i].ServerName?
  {
    forall i | 0 <= i < |es| ensures es[i].Type() == 0 <==> es[i].ServerName? { assert es[i].Formed(); }
  }

  lemma PartAIs(f: Facts)
    requires 0 <= f.alpnFirst < 256 && 0 <= f.alpnLast < 256
    ensures var s := PartA(f);
      && s[0] == 't' as int && s[1..3] == VersionCode(if f.supportedMax != 0 then f.supportedMax else f.legacyVersion)
      && s[3] == (if f.sni then 'd' else 'i') as int
      && s[4..6] == Count99(|f.ciphers|) && s[6..8] == Count99(|f.extensions|)
      && s[8] == f.alpnFirst && s[9] == f.alpnLast
  {
  }

  lemma FirstPartIs(h: Hello)
    requires h.Formed()
    ensures FirstPart(h, PartA(Found(h)))
  {
    var f, es := Found(h), h.ExtList();
    ProtocolIsShown(es);
    PartAIs(f);
    VersionIsShown(h);
    ServerNameOffered(es);
    CountReads(|f.ciphers|);
    CountReads(|f.extensions|);
  }

  // ----- the hashed parts

  /** Lower-case digits, and none else. */
  predicate LowerHex(c: byte) { '0' as int <= c <= '9' as int || 'a' as int <= c <= 'f' as int }

  /** A comma-separated list of four-digit numbers. */
  ghost predicate Lists(text: seq<byte>, vs: seq<nat>)
  {
    var ps := Split(text, ',' as int);
    && |ps| == |vs|
    && forall i :: 0 <= i < |ps| ==> |ps[i]| == 4 && (forall c :: c in ps[i] ==> LowerHex(c))
                                     && IsNumeral(ps[i], 16) && Value(ps[i], 16) == vs[i]
  }

  lemma HexCharReads(d: int)
    requires 0 <= d < 16
    ensures LowerHex(HexChar(d)) && DigitValue(HexChar(d)) == d
  {
  }

  lemma FourDigits(s: seq<byte>)
    requires |s| == 4 && IsNumeral(s, 16)
    ensures Value(s, 16)
         == 16 * (16 * (16 * DigitValue(s[0]) + DigitValue(s[1])) + DigitValue(s[2])) + DigitValue(s[3])
  {
    assert s[..3][..2] == s[..2] && s[..2][..1] == s[..1] && s[..1][..0] == [];
    assert Value(s[..1], 16) == DigitValue(s[0]);
    assert Value(s[..2], 16) == 16 * Value(s[..1], 16) + DigitValue(s[1]);
    assert Value(s[..3], 16) == 16 * Value(s[..2], 16) + DigitValue(s[2]);
  }

  lemma Hex4Reads(v: nat)
    requires v < 0x1_0000
    ensures var s := Hex4(v); (forall c :: c in s ==> LowerHex(c)) && IsNumeral(s, 16) && Value(s, 16) == v
  {
    HexCharReads(v / 16 / 16 / 16 % 16);
    HexCharReads(v / 16 / 16 % 16);
    HexCharReads(v / 16 % 16);
    HexCharReads(v % 16);
    FourDigits(Hex4(v));
    FromNibbles(v);
  }

  lemma {:induction false} HexItemsAt(vs: seq<nat>, i: nat)
    requires i < |vs|
    ensures HexItems(vs)[i] == Hex4(vs[i])
  {
    if i < |vs| - 1 { HexItemsAt(vs[..|vs| - 1], i); }
  }

  lemma HexListLists(vs: seq<nat>)
    requires vs != [] && Short(vs)
    ensures Lists(HexList(vs), vs)
  {
    var ps := HexItems(vs);
    forall i | 0 <= i < |vs|
      ensures ps[i] == Hex4(vs[i]) && (forall c :: c in ps[i] ==> LowerHex(c))
      ensures IsNumeral(ps[i], 16) && Value(ps[i], 16) == vs[i] && COMMA !in ps[i]
    {
      HexItemsAt(vs, i);
      Hex4Reads(vs[i]);
    }
    SplitJoin(ps, COMMA);
  }

  /** Twelve lower-case digits of the first six bytes of a hash. */
  ghost predicate HashText(s: seq<byte>, digest: seq<byte>) { |digest| >= 6 && IsHex(s, digest[..6]) }

  lemma {:induction false} HexBytesMeans(d: seq<byte>)
    ensures IsHex(HexBytes(d), d)
  {
    if d != [] {
      var k := |d| - 1;
      HexBytesMeans(d[..k]);
      HexChars(d[k]);
    }
  }

  /** The values in ascending order. */
  ghost predicate Ascending(vs: seq<nat>, of: seq<nat>)
  {
    (forall i, j :: 0 <= i < j < |vs| ==> vs[i] <= vs[j]) && multiset(vs) == multiset(of)
  }

  /** What the middle twelve characters say: nothing, or the hash of a list of the ciphers in
      ascending order. */
  ghost predicate SecondPart(sha: Sha, ciphers: seq<nat>, s: seq<byte>)
  {
    if ciphers == [] then s == Ascii("000000000000")
    else exists text, vs :: Lists(text, vs) && Ascending(vs, ciphers) && HashText(s, sha(text))
  }

  /** The values other than 0 and 16 in ascending order. */
  ghost predicate AscendingBut(vs: seq<nat>, of: seq<nat>)
  {
    && (forall i, j :: 0 <= i < j < |vs| ==> vs[i] <= vs[j])
    && forall x :: multiset(vs)[x] == if x == 0 || x == 16 then 0 else multiset(of)[x]
  }

  ghost predicate SchemesTail(tail: seq<byte>, schemes: seq<nat>)
  {
    if schemes == [] then tail == [] else tail != [] && tail[0] == '_' as int && Lists(tail[1..], schemes)
  }

  /** What the last twelve characters say: nothing, or the hash of the types other than 0 and 16
      in ascending order and, behind an underscore, the schemes as they were offered. */
  ghost predicate ThirdPart(sha: Sha, types: seq<nat>, schemes: seq<nat>, s: seq<byte>)
  {
    if forall t :: t in types ==> t == 0 || t == 16 then s == Ascii("000000000000")
    else exists text, vs, tail :: Lists(text, vs) && AscendingBut(vs, types) && SchemesTail(tail, schemes)
                                  && HashText(s, sha(text + tail))
  }

  lemma {:induction false} HashedCounts(vs: seq<nat>, x: nat)
    ensures multiset(Hashed(vs))[x] == if x == 0 || x == 16 then 0 else multiset(vs)[x]
  {
    if vs != [] {
      var k := |vs| - 1;
      HashedCounts(vs[..k], x);
      assert vs == vs[..k] + [vs[k]];
    }
  }

  lemma {:induction false} HashedNone(vs: seq<nat>)
    ensures Hashed(vs) == [] <==> forall t :: t in vs ==> t == 0 || t == 16
  {
    if vs != [] {
      var k := |vs| - 1;
      HashedNone(vs[..k]);
      assert vs == vs[..k] + [vs[k]] && vs[k] in vs && forall t :: t in vs[..k] ==> t in vs;
    }
  }

  lemma TwelveZeros()
    ensures Zeros12() == Ascii("000000000000")
  {
  }

  lemma Sha12Means(sha: Sha, text: seq<byte>)
    ensures HashText(Sha12(sha, text), sha(text))
  {
    HexBytesMeans(sha(text)[..6]);
  }

  lemma SortAscends(a: seq<nat>)
    requires Short(a)
    ensures Low16s(a) == a
    ensures var vs := Sort(LEQ, a);
      && |vs| == |a| && (forall i :: 0 <= i < |vs| ==> 0 <= vs[i] < 0x1_0000)
      && (forall i, j :: 0 <= i < j < |vs| ==> vs[i] <= vs[j]) && multiset(vs) == multiset(a)
  {
    Low16sShort(a);
    NumbersOrdered();
    SortFacts(LEQ, a);
    SortedShort(Sort(LEQ, a), a);
    var vs := Sort(LEQ, a);
    forall i, j | 0 <= i < j < |vs| ensures vs[i] <= vs[j] { assert LEQ(vs[i], vs[j]); }
  }

  lemma SecondPartIs(sha: Sha, ciphers: seq<nat>)
    requires Short(ciphers)
    ensures SecondPart(sha, ciphers, PartB(sha, ciphers))
  {
    TwelveZeros();
    if ciphers != [] {
      SortAscends(ciphers);
      var vs: seq<nat> := Sort(LEQ, ciphers);
      HexListLists(vs);
      Sha12Means(sha, HexList(vs));
      assert Lists(HexList(vs), vs) && Ascending(vs, ciphers);
    }
  }

  lemma SchemesTailIs(schemes: seq<nat>)
    requires Short(schemes)
    ensures SchemesTail(if schemes == [] then [] else [UNDERSCORE] + HexList(schemes), schemes)
  {
    if schemes != [] {
      HexListLists(schemes);
      assert ([UNDERSCORE] + HexList(schemes))[1..] == HexList(schemes);
    }
  }

  lemma ThirdPartIs(sha: Sha, types: seq<nat>, schemes: seq<nat>)
    requires Short(types) && Short(schemes)
    ensures ThirdPart(sha, types, schemes, PartC(sha, types, schemes))
  {
    TwelveZeros();
    HashedNone(types);
    var es := Hashed(types);
    if es != [] {
      HashedShort(types);
      SortAscends(es);
      SchemesTailIs(schemes);
      var vs: seq<nat> := Sort(LEQ, es);
      var tail := if schemes == [] then [] else [UNDERSCORE] + HexList(schemes);
      HexListLists(vs);
      Sha12Means(sha, HexList(vs) + tail);
      HashedAscend(vs, es, types);
      assert Lists(HexList(vs), vs) && AscendingBut(vs, types) && SchemesTail(tail, schemes);
    }
  }

  lemma HashedAscend(vs: seq<nat>, es: seq<nat>, types: seq<nat>)
    requires es == Hashed(types) && multiset(vs) == multiset(es)
    requires forall i, j :: 0 <= i < j < |vs| ==> vs[i] <= vs[j]
    ensures AscendingBut(vs, types)
  {
    forall x: nat { HashedCounts(types, x); }
  }

  /** What all thirty-six say. */
  ghost predicate Reads(sha: Sha, h: Hello, s: seq<byte>)
  {
    && |s| == 36 && s[10] == '_' as int && s[23] == '_' as int
    && FirstPart(h, s[..10])
    && SecondPart(sha, Take(NonGrease(h.ciphers), 1024), s[11..23])
    && ThirdPart(sha, Take(NonGrease(Types(h.ExtList())), 1024), Take(NonGrease(Schemes(h.ExtList())), 256), s[24..])
  }

  lemma PartsRead(sha: Sha, h: Hello, a: seq<byte>, b: seq<byte>, c: seq<byte>)
    requires |a| == 10 && |b| == 12 && |c| == 12 && FirstPart(h, a)
    requires SecondPart(sha, Take(NonGrease(h.ciphers), 1024), b)
    requires ThirdPart(sha, Take(NonGrease(Types(h.ExtList())), 1024), Take(NonGrease(Schemes(h.ExtList())), 256), c)
    ensures Reads(sha, h, a + [UNDERSCORE] + b + [UNDERSCORE] + c)
  {
    ThreeParts(a, b, c);
  }

  /** The fingerprint of every well-formed hello reads as what the hello offers. */
  lemma FingerprintReads(sha: Sha, h: Hello)
    requires h.Formed()
    ensures var r := Fingerprint(sha, h.Bytes()); r.Some? && Reads(sha, h, r.value)
  {
    FingerprintOf(sha, h);
    StringReads(sha, h);
  }

  lemma StringReads(sha: Sha, h: Hello)
    requires h.Formed()
    ensures Reads(sha, h, Ja4String(sha, Found(h)))
  {
    var f := Found(h);
    FirstPartIs(h);
    FoundShort(h);
    NonGreaseShort(h.ciphers);
    SecondPartIs(sha, f.ciphers);
    ThirdPartIs(sha, f.extensions, f.sigAlgs);
    AlpnCharsAlnum(h.ExtList(), (ZERO, ZERO));
    PartAShape(f);
    PartsRead(sha, h, PartA(f), PartB(sha, f.ciphers), PartC(sha, f.extensions, f.sigAlgs));
  }

  lemma ThreeParts(a: seq<byte>, b: seq<byte>, c: seq<byte>)
    requires |a| == 10 && |b| == 12 && |c| == 12
    ensures var s := a + [UNDERSCORE] + b + [UNDERSCORE] + c;
      && |s| == 36 && s[10] == UNDERSCORE == s[23] && s[..10] == a && s[11..23] == b && s[24..] == c
  {
  }
}
