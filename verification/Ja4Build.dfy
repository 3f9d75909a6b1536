/** ja4_build.c: the JA4 string of a parsed ClientHello.  SHA-256 is a parameter. */
module Ja4Build {
  import opened Bytes
  import opened Ja4Parser
  import opened Sorting

  type Digest = d: seq<byte> | |d| == 32 witness seq(32, _ => 0)
  type Sha = seq<byte> -> Digest

  const COMMA: byte := 44
  const UNDERSCORE: byte := 95
  const SCRATCH := (MAX_EXTENSIONS + MAX_SIG_ALGS) * 5 + 8

  // ----- the string, as a function of what was parsed

  function Hex4(v: nat): (s: seq<byte>)
    ensures |s| == 4
  {
    [HexChar(v / 16 / 16 / 16 % 16), HexChar(v / 16 / 16 % 16), HexChar(v / 16 % 16), HexChar(v % 16)]
  }

  function HexItems(vs: seq<nat>): (r: seq<seq<byte>>)
    ensures |r| == |vs|
  {
    if vs == [] then [] else HexItems(vs[..|vs| - 1]) + [Hex4(vs[|vs| - 1])]
  }

  /** "xxxx,xxxx,...". */
  function HexList(vs: seq<nat>): seq<byte> { Join(HexItems(vs), COMMA) }

  function HexBytes(d: seq<byte>): (s: seq<byte>)
    ensures |s| == 2 * |d|
    ensures forall i :: 0 <= i < |s| ==> IsAlnum(s[i])
  {
    if d == [] then [] else HexBytes(d[..|d| - 1]) + [HexChar(d[|d| - 1] / 16), HexChar(d[|d| - 1] % 16)]
  }

  /** The first twelve hex digits of the hash. */
  function Sha12(sha: Sha, text: seq<byte>): (s: seq<byte>)
    ensures |s| == 12 && forall i :: 0 <= i < 12 ==> IsAlnum(s[i])
  {
    HexBytes(sha(text)[..6])
  }

  function Zeros12(): (s: seq<byte>)
    ensures |s| == 12 && forall i :: 0 <= i < 12 ==> IsAlnum(s[i])
  {
    seq(12, _ => ZERO)
  }

  function Low16s(vs: seq<nat>): (r: seq<nat>)
    ensures |r| == |vs| && forall i :: 0 <= i < |r| ==> r[i] == vs[i] % 0x1_0000
  {
    seq(|vs|, i requires 0 <= i < |vs| => vs[i] % 0x1_0000)
  }

  /** The extensions that enter the hash: all but SNI and ALPN. */
  function Hashed(vs: seq<nat>): (r: seq<nat>)
    ensures |r| <= |vs|
  {
    if vs == [] then []
    else
      var v, r := vs[|vs| - 1], Hashed(vs[..|vs| - 1]);
      if v == 0 || v == 16 then r else r + [v]
  }

  function VersionCode(v: nat): (s: seq<byte>)
    ensures |s| == 2 && IsAlnum(s[0]) && IsAlnum(s[1])
  {
    match v
    case 0x0304 => [49, 51]
    case 0x0303 => [49, 50]
    case 0x0302 => [49, 49]
    case 0x0301 => [49, 48]
    case 0x0300 => [115, 51]
    case 0x0002 => [115, 50]
    case 0xfeff => [100, 49]
    case 0xfefd => [100, 50]
    case 0xfefc => [100, 51]
    case _ => [48, 48]
  }

  /** %02d of a count shown as at most 99. */
  function Count99(n: nat): (s: seq<byte>)
    ensures |s| == 2 && IsAlnum(s[0]) && IsAlnum(s[1])
  {
    var m := if n > 99 then 99 else n;
    [48 + m / 10, 48 + m % 10]
  }

  function PartA(f: Facts): (s: seq<byte>)
    ensures |s| == 10
  {
    [116] + VersionCode(if f.supportedMax != 0 then f.supportedMax else f.legacyVersion)
    + [if f.sni then 100 else 105] + Count99(|f.ciphers|) + Count99(|f.extensions|)
    + [f.alpnFirst % 256, f.alpnLast % 256]
  }

  function PartB(sha: Sha, ciphers: seq<nat>): (s: seq<byte>)
    ensures |s| == 12 && forall i :: 0 <= i < 12 ==> IsAlnum(s[i])
  {
    if ciphers == [] then Zeros12() else Sha12(sha, HexList(Sort(LEQ, Low16s(ciphers))))
  }

  function PartC(sha: Sha, extensions: seq<nat>, sigAlgs: seq<nat>): (s: seq<byte>)
    ensures |s| == 12 && forall i :: 0 <= i < 12 ==> IsAlnum(s[i])
  {
    var es := Hashed(extensions);
    if es == [] then Zeros12()
    else Sha12(sha, HexList(Sort(LEQ, Low16s(es)))
                    + (if sigAlgs == [] then [] else [UNDERSCORE] + HexList(sigAlgs)))
  }

  /** "%s_%s_%s"; a NUL among the ALPN characters of a corrupt struct cuts the first part. */
  function Ja4String(sha: Sha, f: Facts): seq<byte>
  {
    CStr(PartA(f)) + [UNDERSCORE] + PartB(sha, f.ciphers) + [UNDERSCORE] + PartC(sha, f.extensions, f.sigAlgs)
  }

  /** With the ALPN characters a parse leaves, the string is a(10)_b(12)_c(12), letters
      and digits apart from the two underscores. */
  lemma Ja4Shape(sha: Sha, f: Facts)
    requires IsAlnum(f.alpnFirst) && IsAlnum(f.alpnLast)
    ensures var s := Ja4String(sha, f);
      && |s| == 36 && s[10] == UNDERSCORE && s[23] == UNDERSCORE
      && forall i :: 0 <= i < 36 && i != 10 && i != 23 ==> IsAlnum(s[i])
  {
    PartAShape(f);
    PartsShape(PartA(f), PartB(sha, f.ciphers), PartC(sha, f.extensions, f.sigAlgs));
  }

  ghost predicate AllAlnum(s: seq<byte>) { forall i :: 0 <= i < |s| ==> IsAlnum(s[i]) }

  lemma PartAShape(f: Facts)
    requires IsAlnum(f.alpnFirst) && IsAlnum(f.alpnLast)
    ensures AllAlnum(PartA(f)) && CStr(PartA(f)) == PartA(f)
  {
    var a := PartA(f);
    assert AllAlnum(a);
    assert 0 !in a;
    CStrFacts(a);
  }

  lemma PartsShape(a: seq<byte>, b: seq<byte>, c: seq<byte>)
    requires |a| == 10 && |b| == 12 && |c| == 12 && AllAlnum(a) && AllAlnum(b) && AllAlnum(c)
    ensures var s := a + [UNDERSCORE] + b + [UNDERSCORE] + c;
      && |s| == 36 && s[10] == UNDERSCORE && s[23] == UNDERSCORE
      && forall i :: 0 <= i < 36 && i != 10 && i != 23 ==> IsAlnum(s[i])
  {
  }

  // ----- the builder

  method PutHex4(buf: array<byte>, bp: nat, v: nat)
    requires bp + 4 <= buf.Length
    modifies buf
    ensures buf[..bp + 4] == old(buf[..bp]) + Hex4(v)
  {
    buf[bp] := HexChar(v / 16 / 16 / 16 % 16);
    buf[bp + 1] := HexChar(v / 16 / 16 % 16);
    buf[bp + 2] := HexChar(v / 16 % 16);
    buf[bp + 3] := HexChar(v % 16);
  }

  lemma HexListStep(vs: seq<nat>, i: nat)
    requires i < |vs|
    ensures HexList(vs[..i + 1]) == (if i == 0 then [] else HexList(vs[..i]) + [COMMA]) + Hex4(vs[i])
  {
    assert vs[..i + 1][..i] == vs[..i];
    if i > 0 { JoinSnoc(HexItems(vs[..i]), Hex4(vs[i]), COMMA); }
  }

  /** The comma-joined list at bp; the write pointer behind it. */
  method PutHexList(buf: array<byte>, bp0: nat, vs: seq<nat>) returns (bp: nat)
    requires bp0 + 5 * |vs| <= buf.Length
    modifies buf
    ensures bp0 <= bp <= bp0 + 5 * |vs| && buf[..bp] == old(buf[..bp0]) + HexList(vs)
  {
    bp := bp0;
    for i := 0 to |vs|
      invariant bp0 <= bp <= bp0 + 5 * i
      invariant buf[..bp] == old(buf[..bp0]) + HexList(vs[..i])
    {
      HexListStep(vs, i);
      if i > 0 {
        buf[bp] := COMMA;
        bp := bp + 1;
        assert buf[..bp] == buf[..bp - 1] + [COMMA];
      }
      PutHex4(buf, bp, vs[i]);
      bp := bp + 4;
    }
    assert vs[..|vs|] == vs;
  }

  method StartHexList(buf: array<byte>, vs: seq<nat>) returns (bp: nat)
    requires 5 * |vs| <= buf.Length
    modifies buf
    ensures bp <= 5 * |vs| && buf[..bp] == HexList(vs)
  {
    assert buf[..0] == [];
    bp := PutHexList(buf, 0, vs);
    assert [] + HexList(vs) == HexList(vs);
  }

  /** qsort of the first n entries; on numbers every sorted permutation is this one. */
  method QSort(a: array<nat>, n: nat)
    requires n <= a.Length
    modifies a
    ensures a[..n] == Sort(LEQ, old(a[..n]))
  {
    ghost var was := a[..n];
    var r := Sort(LEQ, a[..n]);
    NumbersOrdered();
    SortFacts(LEQ, a[..n]);
    PermutesLength(r, a[..n]);
    forall i | 0 <= i < n ensures r[i] >= 0 { PermutesMember(r, was, r[i]); }
    forall i | 0 <= i < n { a[i] := r[i]; }
    assert a[..n] == r;
  }

  method SortedCiphers(list: Buf) returns (r: seq<nat>)
    requires |list.data| == MAX_CIPHERS
    ensures r == Sort(LEQ, Low16s(list.Items()))
  {
    var sorted := new nat[MAX_CIPHERS];
    var n := list.Count();
    for i := 0 to n
      invariant sorted[..i] == Low16s(list.data[..i])
    {
      sorted[i] := list.data[i] % 0x1_0000;
    }
    QSort(sorted, n);
    r := sorted[..n];
  }

  lemma HashedStep(vs: seq<nat>, i: nat)
    requires i < |vs|
    ensures Hashed(vs[..i + 1]) == Hashed(vs[..i]) + (if vs[i] == 0 || vs[i] == 16 then [] else [vs[i]])
  {
    assert vs[..i + 1][..i] == vs[..i];
  }

  method SortedExtensions(list: Buf) returns (r: seq<nat>)
    requires |list.data| == MAX_EXTENSIONS
    ensures r == Sort(LEQ, Low16s(Hashed(list.Items()))) && |r| == |Hashed(list.Items())| <= MAX_EXTENSIONS
  {
    var sorted := new nat[MAX_EXTENSIONS];
    var n, k := list.Count(), 0;
    for i := 0 to n
      invariant 0 <= k <= i && sorted[..k] == Low16s(Hashed(list.data[..i])) && k == |Hashed(list.data[..i])|
    {
      HashedStep(list.data, i);
      if list.data[i] != 0 && list.data[i] != 16 {
        sorted[k] := list.data[i] % 0x1_0000;
        k := k + 1;
      }
    }
    ghost var was := sorted[..k];
    QSort(sorted, k);
    NumbersOrdered();
    SortFacts(LEQ, was);
    PermutesLength(Sort(LEQ, was), was);
    r := sorted[..k];
  }

  method BuildB(sha: Sha, buf: array<byte>, list: Buf) returns (b: seq<byte>)
    requires buf.Length == SCRATCH && |list.data| == MAX_CIPHERS
    modifies buf
    ensures b == PartB(sha, list.Items())
  {
    if list.Count() > 0 {
      var sorted := SortedCiphers(list);
      SortedLength(Low16s(list.Items()));
      var bp := StartHexList(buf, sorted);
      b := Sha12(sha, buf[..bp]);
    } else {
      b := Zeros12();
    }
  }

  lemma SortedLength(vs: seq<nat>)
    ensures |Sort(LEQ, vs)| == |vs|
  {
    NumbersOrdered();
    SortFacts(LEQ, vs);
    PermutesLength(Sort(LEQ, vs), vs);
  }

  /** The signature algorithms behind an underscore, if there are any. */
  method PutSchemes(buf: array<byte>, bp0: nat, vs: seq<nat>) returns (bp: nat)
    requires bp0 + 1 + 5 * |vs| <= buf.Length
    modifies buf
    ensures bp <= buf.Length
    ensures buf[..bp] == old(buf[..bp0]) + (if vs == [] then [] else [UNDERSCORE] + HexList(vs))
  {
    bp := bp0;
    if vs == [] { return; }
    buf[bp] := UNDERSCORE;
    ghost var list := buf[..bp0];
    assert buf[..bp + 1] == list + [UNDERSCORE];
    bp := PutHexList(buf, bp + 1, vs);
    assert buf[..bp] == list + ([UNDERSCORE] + HexList(vs));
  }

  method BuildC(sha: Sha, buf: array<byte>, exts: Buf, sigs: Buf) returns (c: seq<byte>)
    requires buf.Length == SCRATCH && |exts.data| == MAX_EXTENSIONS && |sigs.data| == MAX_SIG_ALGS
    modifies buf
    ensures c == PartC(sha, exts.Items(), sigs.Items())
  {
    var sorted := SortedExtensions(exts);
    var bp := StartHexList(buf, sorted);
    bp := PutSchemes(buf, bp, sigs.Items());
    if |sorted| > 0 {
      c := Sha12(sha, buf[..bp]);
    } else {
      c := Zeros12();
    }
  }

  /** ja4_build_string: any struct, any output size.  All writes stay inside the scratch
      buffer and the output; the output is NUL-terminated and holds the JA4 string, cut to
      what fits. */
  method BuildString(sha: Sha, parsed: Parsed, out: array<byte>) returns (n: nat)
    requires |parsed.ciphers.data| == MAX_CIPHERS && |parsed.extensions.data| == MAX_EXTENSIONS
    requires |parsed.sigAlgs.data| == MAX_SIG_ALGS
    modifies out
    ensures out.Length == 0 ==> n == 0
    ensures out.Length > 0 ==> n < out.Length && out[n] == 0
                               && out[..n] == Take(Ja4String(sha, parsed.View()), out.Length - 1)
  {
    if out.Length == 0 { return 0; }
    var buf := new byte[SCRATCH];
    var a := PartA(parsed.View());
    var b := BuildB(sha, buf, parsed.ciphers);
    var c := BuildC(sha, buf, parsed.extensions, parsed.sigAlgs);
    n := PrintParts(out, CStr(a) + [UNDERSCORE] + b + [UNDERSCORE] + c);
  }

  /** snprintf into `out`: the text that fits, and its terminator. */
  method PrintParts(out: array<byte>, text: seq<byte>) returns (n: nat)
    requires out.Length > 0
    modifies out
    ensures n < out.Length && out[n] == 0 && out[..n] == Take(text, out.Length - 1)
  {
    n := if |text| >= out.Length then out.Length - 1 else |text|;
    for i := 0 to n
      invariant out[..i] == text[..i]
    {
      out[i] := text[i];
    }
    out[n] := 0;
  }
}
