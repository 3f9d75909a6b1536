/** bv_parser.c: the structural decode of the `_bv` pass cookie and of the Cookie
    header that carries it. */
module BvParser {
  import opened Bytes
  import opened Numerals

  const INT64_MAX := 0x7FFF_FFFF_FFFF_FFFF
  const DOT: byte := 46
  const EQ: byte := 61
  const QUOTE: byte := 34
  const POW2: seq<byte> := [112, 111, 119, 50]      // "pow2"

  // ----- numbers

  /** bv_atoll: one to eighteen decimal digits, else -1. */
  method Atoll(s: seq<byte>) returns (v: int)
    ensures v == AtollSpec(s)
    ensures v <= INT64_MAX
  {
    if |s| == 0 || |s| > 18 { return -1; }
    v := 0;
    for i := 0 to |s|
      invariant IsNumeral(s[..i], 10) && v == Value(s[..i], 10)
      invariant v < Pow(10, i)
    {
      if s[i] < 48 || s[i] > 57 { return -1; }
      assert s[..i + 1][..i] == s[..i];
      v := v * 10 + (s[i] - 48);
    }
    assert s[..|s|] == s;
    PowMonotone(10, |s|, 18);
    Pow10Values();
  }

  function AtollSpec(s: seq<byte>): int
  {
    if 1 <= |s| <= 18 && IsNumeral(s, 10) then Value(s, 10) else -1
  }

  lemma {:induction false} PowMonotone(b: nat, j: nat, k: nat)
    requires b >= 1 && j <= k
    ensures 1 <= Pow(b, j) <= Pow(b, k)
    decreases k
  {
    if j < k {
      PowMonotone(b, j, k - 1);
      MulGrows(Pow(b, k - 1), b);
    } else if k > 0 {
      PowMonotone(b, k - 1, k - 1);
      MulGrows(Pow(b, k - 1), b);
    }
  }

  function Base36Spec(s: seq<byte>): int
  {
    if 1 <= |s| <= 13 && IsNumeral(s, 36) && Value(s, 36) <= INT64_MAX then Value(s, 36) else -1
  }

  /** bv_base36.  The guard keeps every intermediate value within an int64. */
  method Base36(s: seq<byte>) returns (v: int)
    ensures v == Base36Spec(s)
  {
    if |s| == 0 || |s| > 13 { return -1; }
    v := 0;
    for i := 0 to |s|
      invariant IsNumeral(s[..i], 36) && v == Value(s[..i], 36) && v <= INT64_MAX
    {
      var d := DigitValue(s[i]);
      if d < 0 { return -1; }
      ghost var t := s[..i + 1];
      assert t[..i] == s[..i];
      if v > (INT64_MAX - d) / 36 {
        if IsNumeral(s, 36) { ValuePrefix(s, 36, i + 1); }
        return -1;
      }
      v := v * 36 + d;
    }
    assert s[..|s|] == s;
  }

  /** The digit loop of e2e/lib/powsolve.py, which is also toString(36). */
  method EncodeBase36(n: nat) returns (b36: seq<byte>)
    ensures b36 == Numeral(n, 36)
  {
    var m := n;
    b36 := [];
    while m > 0
      invariant m >= 0 && HighDigits(n, 36) == HighDigits(m, 36) + b36
    {
      HighDigitsStep(m, 36);
      b36 := [Digit(m % 36)] + b36;
      m := m / 36;
    }
    if b36 == [] { b36 := [48]; }
  }

  /** bv_base36 inverts the encoder on every non-negative int64. */
  lemma Base36Inverts(n: nat)
    requires n <= INT64_MAX
    ensures Base36Spec(Numeral(n, 36)) == n
  {
    ValueOfNumeral(n, 36);
    Pow36Values();
    NumeralLength(n, 36, 13);
  }

  /** And bv_atoll the decimal encoder, up to eighteen digits. */
  lemma AtollInverts(n: nat)
    requires n < 1_000_000_000_000_000_000
    ensures 1 <= |Numeral(n, 10)| <= 18 && AtollSpec(Numeral(n, 10)) == n
  {
    ValueOfNumeral(n, 10);
    Pow10Values();
    NumeralLength(n, 10, 18);
  }

  /** An issue time has at most the ten digits an entry leaves room for. */
  lemma IssueTimeLength(n: nat)
    requires n < 10_000_000_000
    ensures |Numeral(n, 10)| <= 10
  {
    Pow10Values();
    NumeralLength(n, 10, 10);
  }

  // ----- entries

  datatype Entry = NoEntry | Captcha(day: seq<byte>, sig: seq<byte>, kind: seq<byte>)
                 | Pow2(day: seq<byte>, target: seq<byte>)

  /** What an entry is, by its '.'-separated segments. */
  function EntryOf(data: seq<byte>): Entry { EntryFrom(|data|, Split(data, DOT)) }

  function EntryFrom(n: nat, segs: seq<seq<byte>>): Entry
  {
    if |segs| < 3 then NoEntry else BySegments(n, segs[0], segs[1], segs[2], |segs| > 3)
  }

  /** What three segments, and perhaps more, make of an entry of n bytes. */
  function BySegments(n: nat, a: seq<byte>, b: seq<byte>, c: seq<byte>, more: bool): Entry
  {
    if n < 4 || n > 80 || !(1 <= |a| <= 10) then NoEntry
    else if !more then
      if |b| == 16 && 1 <= |c| <= 32 then Captcha(a, b, c) else NoEntry
    else if b == POW2 && 1 <= |c| <= 13 then Pow2(a, c)
    else NoEntry
  }

  datatype Format = FmtNone | FmtCaptcha | FmtPow2

  /** bv_fields_t: offsets and lengths into the entry. */
  datatype Fields = Fields(format: Format, dayOff: nat, dayLen: nat, sigOff: nat, sigLen: nat,
                           tailOff: nat, tailLen: nat)
  {
    ghost predicate Within(n: nat)
    {
      dayOff + dayLen <= n && sigOff + sigLen <= n && tailOff + tailLen <= n
    }

    /** The entry these fields describe. */
    ghost function View(data: seq<byte>): Entry
      requires Within(|data|)
    {
      match format
      case FmtNone => NoEntry
      case FmtCaptcha => Captcha(data[dayOff..dayOff + dayLen], data[sigOff..sigOff + sigLen],
                                 data[tailOff..tailOff + tailLen])
      case FmtPow2 => Pow2(data[dayOff..dayOff + dayLen], data[tailOff..tailOff + tailLen])
    }
  }

  const NO_FIELDS := Fields(FmtNone, 0, 0, 0, 0, 0, 0)

  /** The text from `from` splits at d; at the end it is one segment. */
  ghost predicate SplitsAt(s: seq<byte>, from: nat, d: nat)
  {
    && from <= d <= |s|
    && (d < |s| ==> Split(s[from..], DOT) == [s[from..d]] + Split(s[d + 1..], DOT))
    && (d == |s| ==> Split(s[from..], DOT) == [s[from..d]])
  }

  /** memchr for the next dot. */
  method NextDot(s: seq<byte>, from: nat) returns (d: nat)
    requires from <= |s|
    ensures SplitsAt(s, from, d)
  {
    d := from + IndexOf(s[from..], DOT);
    if d < |s| { SegmentAt(s, from, d); } else { WholeSegment(s, from); }
  }

  lemma FirstSegment(s: seq<byte>, d: nat)
    requires d == IndexOf(s, DOT) && d < |s|
    ensures Split(s, DOT) == [s[..d]] + Split(s[d + 1..], DOT)
  {
  }

  lemma SegmentAt(s: seq<byte>, from: nat, d: nat)
    requires from <= |s| && d == from + IndexOf(s[from..], DOT) && d < |s|
    ensures Split(s[from..], DOT) == [s[from..d]] + Split(s[d + 1..], DOT)
  {
    var r := s[from..];
    FirstSegment(r, d - from);
    assert r[..d - from] == s[from..d] && r[d - from + 1..] == s[d + 1..];
  }

  lemma WholeSegment(s: seq<byte>, from: nat)
    requires from <= |s| && IndexOf(s[from..], DOT) == |s| - from
    ensures Split(s[from..], DOT) == [s[from..|s|]]
  {
    assert s[from..|s|] == s[from..];
  }

  lemma ThreeSegments(n: nat, a: seq<byte>, b: seq<byte>, rest: seq<seq<byte>>)
    requires rest != []
    ensures EntryFrom(n, [a] + ([b] + rest)) == BySegments(n, a, b, rest[0], |rest| > 1)
  {
    var segs := [a] + ([b] + rest);
    assert segs[0] == a && segs[1] == b && segs[2] == rest[0];
  }

  lemma LastSegment(s: seq<byte>, from: nat, d: nat)
    requires SplitsAt(s, from, d)
    ensures var rest := Split(s[from..], DOT); rest != [] && rest[0] == s[from..d] && (|rest| > 1 <==> d < |s|)
  {
  }

  /** The entry is what the text between the dots makes it. */
  ghost predicate AtDots(s: seq<byte>, e: Entry, d1: nat, d2: nat, d3: nat)
  {
    d1 < d2 < d3 <= |s| && e == BySegments(|s|, s[0..d1], s[d1 + 1..d2], s[d2 + 1..d3], d3 < |s|)
  }

  lemma EntryAtDots(s: seq<byte>, d1: nat, d2: nat, d3: nat)
    requires SplitsAt(s, 0, d1) && d1 < |s| && SplitsAt(s, d1 + 1, d2) && d2 < |s| && SplitsAt(s, d2 + 1, d3)
    ensures AtDots(s, EntryOf(s), d1, d2, d3)
  {
    assert s[0..] == s;
    LastSegment(s, d2 + 1, d3);
    ThreeSegments(|s|, s[0..d1], s[d1 + 1..d2], Split(s[d2 + 1..], DOT));
  }

  lemma FewSegments(s: seq<byte>, d1: nat, d2: nat)
    requires SplitsAt(s, 0, d1) && (d1 < |s| ==> SplitsAt(s, d1 + 1, d2) && d2 == |s|)
    ensures EntryOf(s) == NoEntry
  {
    assert s[0..] == s;
    if d1 < |s| { assert |Split(s, DOT)| == 1 + |Split(s[d1 + 1..], DOT)|; }
  }

  /** bv_parse_entry: accepts exactly the entries EntryOf describes, and its fields are
      their segments. */
  method ParseEntry(data: seq<byte>) returns (out: Fields)
    ensures out.Within(|data|)
    ensures out.View(data) == EntryOf(data)
    ensures out.format != FmtNone ==> out.dayOff == 0
  {
    if |data| < 4 || |data| > 80 { return NO_FIELDS; }
    var found, dot1, dot2, dot3 := FindDots(data);
    if !found { return NO_FIELDS; }
    out := FieldsAt(data, dot1, dot2, dot3);
  }

  /** The first two dots, and the third or the end. */
  method FindDots(data: seq<byte>) returns (found: bool, dot1: nat, dot2: nat, dot3: nat)
    ensures !found ==> EntryOf(data) == NoEntry
    ensures found ==> AtDots(data, EntryOf(data), dot1, dot2, dot3)
  {
    dot2, dot3 := 0, 0;
    dot1 := NextDot(data, 0);
    if dot1 == |data| {
      FewSegments(data, dot1, dot1);
      return false, dot1, dot2, dot3;
    }
    dot2 := NextDot(data, dot1 + 1);
    if dot2 == |data| {
      FewSegments(data, dot1, dot2);
      return false, dot1, dot2, dot3;
    }
    dot3 := NextDot(data, dot2 + 1);
    EntryAtDots(data, dot1, dot2, dot3);
    found := true;
  }

  /** The length checks and the format, by the dots. */
  method FieldsAt(data: seq<byte>, dot1: nat, dot2: nat, dot3: nat) returns (out: Fields)
    requires dot1 < dot2 < dot3 <= |data| && 4 <= |data| <= 80
    ensures out.Within(|data|) && (out.format != FmtNone ==> out.dayOff == 0)
    ensures out.View(data)
         == BySegments(|data|, data[0..dot1], data[dot1 + 1..dot2], data[dot2 + 1..dot3], dot3 < |data|)
  {
    out := NO_FIELDS;
    var dayN, sigN, tailN := dot1, dot2 - (dot1 + 1), dot3 - (dot2 + 1);
    if dayN == 0 || dayN > 10 { return; }
    if dot3 < |data| {
      if sigN == 0 || sigN > 13 { return; }
      if tailN == 0 || tailN > 13 { return; }
      if sigN == 4 && data[dot1 + 1..dot1 + 5] == POW2 {
        out := Fields(FmtPow2, 0, dayN, dot1 + 1, sigN, dot2 + 1, tailN);
      }
      return;
    }
    if sigN != 16 { return; }
    if tailN == 0 || tailN > 32 { return; }
    out := Fields(FmtCaptcha, 0, dayN, dot1 + 1, sigN, dot2 + 1, tailN);
  }

  // ----- the Cookie header

  predicate Blank(c: byte) { c == 32 || c == 9 }

  function TrimLeft(s: seq<byte>): seq<byte>
  {
    if s != [] && Blank(s[0]) then TrimLeft(s[1..]) else s
  }

  function TrimRight(s: seq<byte>): seq<byte>
  {
    if s != [] && Blank(s[|s| - 1]) then TrimRight(s[..|s| - 1]) else s
  }

  function Unquote(s: seq<byte>): seq<byte>
  {
    if |s| >= 2 && s[0] == QUOTE && s[|s| - 1] == QUOTE then s[1..|s| - 1] else s
  }

  /** One ';'-separated piece: its value if it is a pair with this name. */
  function PieceValue(piece: seq<byte>, name: seq<byte>): seq<seq<byte>>
  {
    var p := TrimLeft(piece);
    var e := IndexOf(p, EQ);
    if e < |p| then PairValue(p[..e], p[e + 1..], name) else []
  }

  function PairValue(lhs: seq<byte>, rhs: seq<byte>, name: seq<byte>): seq<seq<byte>>
  {
    if TrimRight(lhs) == name then [Unquote(TrimRight(TrimLeft(rhs)))] else []
  }

  type Reader = seq<byte> -> seq<seq<byte>>

  /** What a reader makes of each piece, one after another. */
  function ReadAll(read: Reader, pieces: seq<seq<byte>>): seq<seq<byte>>
  {
    if pieces == [] then [] else read(pieces[0]) + ReadAll(read, pieces[1..])
  }

  /** Cutting at each semicolon in turn, for any reader of the pieces. */
  function Scan(read: Reader, hdr: seq<byte>): seq<seq<byte>>
    decreases |hdr|
  {
    var i := IndexOf(hdr, SEMI);
    if i == |hdr| then read(hdr) else read(hdr[..i]) + Scan(read, hdr[i + 1..])
  }

  lemma {:induction false} ScanBySplit(read: Reader, hdr: seq<byte>)
    ensures Scan(read, hdr) == ReadAll(read, Split(hdr, SEMI))
    decreases |hdr|
  {
    var i := IndexOf(hdr, SEMI);
    if i < |hdr| {
      ScanBySplit(read, hdr[i + 1..]);
    } else {
      assert ReadAll(read, []) == [] && read(hdr) + [] == read(hdr);
    }
  }

  function PairReader(name: seq<byte>): Reader { piece => PieceValue(piece, name) }

  /** Every value of the named cookie in a header, in order: split on ';', trim, match
      the name, unquote. */
  function CookieValues(hdr: seq<byte>, name: seq<byte>): seq<seq<byte>> { Scan(PairReader(name), hdr) }

  /** The same, piece by piece over the split header. */
  lemma CookieValuesBySplit(hdr: seq<byte>, name: seq<byte>)
    ensures CookieValues(hdr, name) == ReadAll(PairReader(name), Split(hdr, SEMI))
  {
    ScanBySplit(PairReader(name), hdr);
  }

  lemma ScanSkip(read: Reader, s: seq<byte>)
    requires s != []
    requires s[0] == SEMI ==> read([]) == []
    requires s[0] != SEMI ==> read(s) == read(s[1..])
    requires var k := IndexOf(s[1..], SEMI); s[0] != SEMI ==> read(s[..1 + k]) == read(s[1..][..k])
    ensures Scan(read, s) == Scan(read, s[1..])
  {
    if s[0] == SEMI {
      assert s[..0] == [];
    } else {
      BlankAhead(s, IndexOf(s[1..], SEMI));
    }
  }

  // ----- what a header means

  predicate Space(c: byte) { c == ' ' as int || c == '\t' as int }

  predicate Spaces(s: seq<byte>) { forall c :: c in s ==> Space(c) }

  /** Text with no space at either end. */
  predicate Bare(s: seq<byte>) { s != [] ==> !Space(s[0]) && !Space(s[|s| - 1]) }

  lemma {:induction false} TrimLeftOf(a: seq<byte>, s: seq<byte>)
    requires Spaces(a) && (s != [] ==> !Space(s[0]))
    ensures TrimLeft(a + s) == s
  {
    if a == [] {
      assert a + s == s;
    } else {
      assert a[0] in a && forall c :: c in a[1..] ==> c in a;
      assert (a + s)[1..] == a[1..] + s;
      TrimLeftOf(a[1..], s);
    }
  }

  lemma {:induction false} TrimRightOf(s: seq<byte>, b: seq<byte>)
    requires Spaces(b) && (s != [] ==> !Space(s[|s| - 1]))
    ensures TrimRight(s + b) == s
  {
    if b == [] {
      assert s + b == s;
    } else {
      var n := |b| - 1;
      assert b[n] in b && forall c :: c in b[..n] ==> c in b;
      assert (s + b)[..|s + b| - 1] == s + b[..n];
      TrimRightOf(s, b[..n]);
    }
  }

  /** Spaces around a name, an equals sign, and spaces around a value. */
  function PairText(a: seq<byte>, name: seq<byte>, b: seq<byte>, c: seq<byte>, value: seq<byte>,
                    d: seq<byte>): seq<byte>
  {
    a + (name + b + (Ascii("=") + (c + (value + d))))
  }

  /** One piece of a header with a pair in it: its value under its own name, nothing under any
      other; double quotes around a value do not belong to it. */
  lemma PairMeans(a: seq<byte>, n: seq<byte>, b: seq<byte>, c: seq<byte>, v: seq<byte>, d: seq<byte>, name: seq<byte>)
    requires Spaces(a) && Spaces(b) && Spaces(c) && Spaces(d) && Bare(n) && Bare(v) && '=' as int !in n && n != []
    ensures PieceValue(PairText(a, n, b, c, v, d), name) ==
      if n != name then []
      else if |v| >= 2 && v[0] == '\"' as int && v[|v| - 1] == '\"' as int then [v[1..|v| - 1]] else [v]
  {
    TrimLeftOf(a, n + b + (Ascii("=") + (c + (v + d))));
    EqualsAt(n + b, c + (v + d));
    TrimRightOf(n, b);
    ValueTrimmed(c, v, d);
  }

  lemma EqualsAt(lhs: seq<byte>, rhs: seq<byte>)
    requires EQ !in lhs
    ensures var s := lhs + (Ascii("=") + rhs);
      IndexOf(s, EQ) == |lhs| && |lhs| < |s| && s[..|lhs|] == lhs && s[|lhs| + 1..] == rhs
  {
    var s := lhs + (Ascii("=") + rhs);
    assert s[..|lhs|] == lhs && s[|lhs|] == EQ;
    IndexOfUnique(s, EQ, |lhs|);
  }

  lemma ValueTrimmed(c: seq<byte>, v: seq<byte>, d: seq<byte>)
    requires Spaces(c) && Spaces(d) && Bare(v)
    ensures TrimRight(TrimLeft(c + (v + d))) == v
  {
    if v == [] {
      assert v + d == d && c + d + [] == c + d;
      TrimLeftOf(c + d, []);
    } else {
      TrimLeftOf(c, v + d);
      TrimRightOf(v, d);
    }
  }

  /** A piece without an equals sign has no value. */
  lemma NoPair(piece: seq<byte>, name: seq<byte>)
    requires '=' as int !in piece
    ensures PieceValue(piece, name) == []
  {
    EqualsTrimmed(piece);
    IndexOfFacts(TrimLeft(piece), EQ);
  }

  lemma {:induction false} EqualsTrimmed(s: seq<byte>)
    requires EQ !in s
    ensures EQ !in TrimLeft(s)
  {
    if s != [] && Blank(s[0]) { EqualsTrimmed(s[1..]); }
  }

  /** A reader of pairs, as a property: a proof about a scan need not look into what is read. */
  ghost predicate IsReader(read: Reader, name: seq<byte>)
  {
    forall piece {:trigger PieceValue(piece, name)} :: read(piece) == PieceValue(piece, name)
  }

  lemma ValuesSkip(s: seq<byte>, name: seq<byte>, read: Reader)
    requires IsReader(read, name)
    requires s != [] && (Blank(s[0]) || s[0] == SEMI)
    ensures Scan(read, s) == Scan(read, s[1..])
  {
    var k := IndexOf(s[1..], SEMI);
    if Blank(s[0]) {
      PieceBlank(s, name);
      PieceBlank(s[..1 + k], name);
      BlankAhead(s, k);
    }
    assert read([]) == PieceValue([], name) && TrimLeft([]) == [];
    if Blank(s[0]) {
      assert read(s) == PieceValue(s, name) && read(s[1..]) == PieceValue(s[1..], name);
      assert read(s[..1 + k]) == PieceValue(s[..1 + k], name) && read(s[1..][..k]) == PieceValue(s[1..][..k], name);
    }
    ScanSkip(read, s);
  }

  lemma BlankAhead(s: seq<byte>, k: nat)
    requires s != [] && s[0] != SEMI && k == IndexOf(s[1..], SEMI)
    ensures IndexOf(s, SEMI) == 1 + k && s[..1 + k][1..] == s[1..][..k]
    ensures k < |s| - 1 ==> s[1..][k + 1..] == s[k + 2..]
  {
  }

  lemma PieceBlank(piece: seq<byte>, name: seq<byte>)
    requires piece != [] && Blank(piece[0])
    ensures PieceValue(piece, name) == PieceValue(piece[1..], name)
  {
  }

  /** Step over whatever cannot start a name; no value is lost by it. */
  method SkipSeparators(hdr: seq<byte>, name: seq<byte>, from: nat, ghost read: Reader) returns (off: nat)
    requires from <= |hdr| && IsReader(read, name)
    ensures from <= off <= |hdr|
    ensures off < |hdr| ==> !Blank(hdr[off]) && hdr[off] != SEMI
    ensures Scan(read, hdr[from..]) == Scan(read, hdr[off..])
  {
    off := from;
    while off < |hdr| && (Blank(hdr[off]) || hdr[off] == SEMI)
      invariant from <= off <= |hdr|
      invariant Scan(read, hdr[from..]) == Scan(read, hdr[off..])
    {
      ValuesSkip(hdr[off..], name, read);
      assert hdr[off..][1..] == hdr[off + 1..];
      off := off + 1;
    }
  }

  method SkipBlanks(hdr: seq<byte>, from: nat, end: nat) returns (off: nat)
    requires from <= end <= |hdr| && (end < |hdr| ==> !Blank(hdr[end]))
    ensures from <= off <= end && hdr[off..end] == TrimLeft(hdr[from..end])
  {
    off := from;
    while off < |hdr| && Blank(hdr[off])
      invariant from <= off <= end
      invariant TrimLeft(hdr[off..end]) == TrimLeft(hdr[from..end])
    {
      assert hdr[off..end][1..] == hdr[off + 1..end];
      off := off + 1;
    }
  }

  method TrimEnd(hdr: seq<byte>, start: nat, from: nat) returns (end: nat)
    requires start <= from <= |hdr|
    ensures start <= end <= from && hdr[start..end] == TrimRight(hdr[start..from])
  {
    end := from;
    while end > start && Blank(hdr[end - 1])
      invariant start <= end <= from
      invariant TrimRight(hdr[start..end]) == TrimRight(hdr[start..from])
    {
      assert hdr[start..end][..end - start - 1] == hdr[start..end - 1];
      end := end - 1;
    }
  }

  /** The end of a name: the next '=' or ';', or the end of the header. */
  method NameEnd(hdr: seq<byte>, start: nat) returns (off: nat)
    requires start <= |hdr|
    ensures start <= off <= |hdr|
    ensures forall k :: start <= k < off ==> hdr[k] != EQ && hdr[k] != SEMI
    ensures off < |hdr| ==> hdr[off] == EQ || hdr[off] == SEMI
  {
    off := start;
    while off < |hdr| && hdr[off] != EQ && hdr[off] != SEMI
      invariant start <= off <= |hdr|
      invariant forall k :: start <= k < off ==> hdr[k] != EQ && hdr[k] != SEMI
    {
      off := off + 1;
    }
  }

  method ValueEnd(hdr: seq<byte>, start: nat) returns (off: nat)
    requires start <= |hdr|
    ensures start <= off <= |hdr|
    ensures forall k :: start <= k < off ==> hdr[k] != SEMI
    ensures off < |hdr| ==> hdr[off] == SEMI
  {
    off := start;
    while off < |hdr| && hdr[off] != SEMI
      invariant start <= off <= |hdr|
      invariant forall k :: start <= k < off ==> hdr[k] != SEMI
    {
      off := off + 1;
    }
  }

  /** The values from `start`, once the pair there is known to end at `stop`. */
  lemma ValuesOfPair(hdr: seq<byte>, name: seq<byte>, read: Reader, start: nat, stop: nat)
    requires IsReader(read, name)
    requires start <= stop <= |hdr| && forall k :: start <= k < stop ==> hdr[k] != SEMI
    requires stop < |hdr| ==> hdr[stop] == SEMI
    ensures Scan(read, hdr[start..])
         == PieceValue(hdr[start..stop], name) + Scan(read, hdr[stop..])
  {
    PairSlices(hdr, start, stop);
    ValuesCut(hdr[start..], name, read, stop - start, hdr[start..stop], hdr[stop..]);
  }

  lemma PairSlices(hdr: seq<byte>, start: nat, stop: nat)
    requires start <= stop <= |hdr| && forall k :: start <= k < stop ==> hdr[k] != SEMI
    ensures var s := hdr[start..];
      s[..stop - start] == hdr[start..stop] && s[stop - start..] == hdr[stop..] && SEMI !in hdr[start..stop]
  {
  }

  lemma ValuesCut(s: seq<byte>, name: seq<byte>, read: Reader, m: nat, head: seq<byte>, rest: seq<byte>)
    requires IsReader(read, name)
    requires m <= |s| && head == s[..m] && rest == s[m..] && SEMI !in head && (m < |s| ==> s[m] == SEMI)
    ensures Scan(read, s) == PieceValue(head, name) + Scan(read, rest)
  {
    assert PieceValue([], name) == [] && read(head) == PieceValue(head, name);
    ScanCut(read, s, m, head, rest);
  }

  lemma ScanCut(read: Reader, s: seq<byte>, m: nat, head: seq<byte>, rest: seq<byte>)
    requires m <= |s| && head == s[..m] && rest == s[m..] && SEMI !in head && (m < |s| ==> s[m] == SEMI)
    requires read([]) == []
    ensures Scan(read, s) == read(head) + Scan(read, rest)
  {
    IndexOfUnique(s, SEMI, m);
    if m < |s| {
      assert rest[1..] == s[m + 1..];
      ScanSkip(read, rest);
    } else {
      assert head == s && rest == [];
    }
  }

  lemma PieceOfPair(hdr: seq<byte>, name: seq<byte>, start: nat, eq: nat, stop: nat)
    requires start <= eq < stop <= |hdr| && !Blank(hdr[start]) && hdr[eq] == EQ
    requires forall k :: start <= k < eq ==> hdr[k] != EQ
    ensures PieceValue(hdr[start..stop], name) == PairValue(hdr[start..eq], hdr[eq + 1..stop], name)
  {
    var piece := hdr[start..stop];
    assert piece[..eq - start] == hdr[start..eq];
    IndexOfUnique(piece, EQ, eq - start);
    assert piece[eq - start + 1..] == hdr[eq + 1..stop];
  }

  lemma ValuesFromEq(hdr: seq<byte>, name: seq<byte>, read: Reader, start: nat, eq: nat, stop: nat)
    requires IsReader(read, name)
    requires start <= eq < stop <= |hdr| && !Blank(hdr[start]) && hdr[eq] == EQ
    requires forall k :: start <= k < eq ==> hdr[k] != EQ
    requires forall k :: start <= k < stop ==> hdr[k] != SEMI
    requires stop < |hdr| ==> hdr[stop] == SEMI
    ensures Scan(read, hdr[start..])
         == PairValue(hdr[start..eq], hdr[eq + 1..stop], name) + Scan(read, hdr[stop..])
  {
    PieceOfPair(hdr, name, start, eq, stop);
    ValuesOfPair(hdr, name, read, start, stop);
  }

  lemma PieceOfBareName(hdr: seq<byte>, name: seq<byte>, start: nat, stop: nat)
    requires start < stop <= |hdr| && !Blank(hdr[start])
    requires forall k :: start <= k < stop ==> hdr[k] != EQ
    ensures PieceValue(hdr[start..stop], name) == []
  {
    var piece := hdr[start..stop];
    assert piece[..stop - start] == piece;
    IndexOfUnique(piece, EQ, stop - start);
  }

  lemma ValuesOfBareName(hdr: seq<byte>, name: seq<byte>, read: Reader, start: nat, stop: nat)
    requires IsReader(read, name)
    requires start < stop <= |hdr| && !Blank(hdr[start])
    requires forall k :: start <= k < stop ==> hdr[k] != EQ && hdr[k] != SEMI
    requires stop < |hdr| ==> hdr[stop] == SEMI
    ensures Scan(read, hdr[start..]) == Scan(read, hdr[stop..])
  {
    PieceOfBareName(hdr, name, start, stop);
    ValuesOfPair(hdr, name, read, start, stop);
  }

  /** bv_cookie_next: the next value of the named cookie, with strict progress; repeated
      calls yield exactly CookieValues. */
  method CookieNext(hdr: seq<byte>, name: seq<byte>, from: nat)
    returns (found: bool, off: nat, valOff: nat, valLen: nat)
    requires from <= |hdr|
    ensures from <= off <= |hdr|
    ensures found ==> from < off && valOff + valLen <= |hdr|
    ensures found ==>
      CookieValues(hdr[from..], name) == [hdr[valOff..valOff + valLen]] + CookieValues(hdr[off..], name)
    ensures !found ==> CookieValues(hdr[from..], name) == []
  {
    found, off, valOff, valLen := NextValue(hdr, name, from, PairReader(name));
  }

  /** The scan, for any reader of the pieces that reads them as pairs. */
  method NextValue(hdr: seq<byte>, name: seq<byte>, from: nat, ghost read: Reader)
    returns (found: bool, off: nat, valOff: nat, valLen: nat)
    requires from <= |hdr| && IsReader(read, name)
    ensures from <= off <= |hdr|
    ensures found ==> from < off && valOff + valLen <= |hdr|
    ensures found ==> Scan(read, hdr[from..]) == [hdr[valOff..valOff + valLen]] + Scan(read, hdr[off..])
    ensures !found ==> Scan(read, hdr[from..]) == []
  {
    found, off, valOff, valLen := false, from, 0, 0;
    ghost var all := Scan(read, hdr[from..]);
    while off < |hdr|
      invariant from <= off <= |hdr| && !found && all == Scan(read, hdr[off..])
    {
      found, off, valOff, valLen := NextPair(hdr, name, off, read);
      if found { return; }
      NothingFirst(Scan(read, hdr[off..]));
    }
    NothingBehind(hdr, name, read);
  }

  lemma NothingBehind(hdr: seq<byte>, name: seq<byte>, read: Reader)
    requires IsReader(read, name)
    ensures Scan(read, hdr[|hdr|..]) == []
  {
    assert read([]) == PieceValue([], name) == [];
  }

  /** One turn of the scan: one pair, one bare name, or the end. */
  method NextPair(hdr: seq<byte>, name: seq<byte>, from: nat, ghost read: Reader)
    returns (found: bool, off: nat, valOff: nat, valLen: nat)
    requires from < |hdr| && IsReader(read, name)
    ensures from < off <= |hdr|
    ensures found ==> valOff + valLen <= |hdr|
    ensures Scan(read, hdr[from..])
         == (if found then [hdr[valOff..valOff + valLen]] else []) + Scan(read, hdr[off..])
  {
    var start := SkipSeparators(hdr, name, from, read);
    if start == |hdr| {
      NothingFirst(Scan(read, hdr[start..]));
      return false, start, 0, 0;
    }
    found, off, valOff, valLen := PairAt(hdr, name, start, read);
  }

  lemma NothingFirst(s: seq<seq<byte>>)
    ensures [] + s == s
  {
  }

  /** What starts here: a pair or a bare name. */
  method PairAt(hdr: seq<byte>, name: seq<byte>, start: nat, ghost read: Reader)
    returns (found: bool, off: nat, valOff: nat, valLen: nat)
    requires IsReader(read, name) && start < |hdr| && !Blank(hdr[start]) && hdr[start] != SEMI
    ensures start < off <= |hdr|
    ensures found ==> valOff + valLen <= |hdr|
    ensures Scan(read, hdr[start..])
         == (if found then [hdr[valOff..valOff + valLen]] else []) + Scan(read, hdr[off..])
  {
    found, valOff, valLen := false, 0, 0;
    off := NameEnd(hdr, start);
    if off < |hdr| && hdr[off] == EQ {
      found, off, valOff, valLen := TakePair(hdr, name, start, off, read);
    } else {
      ValuesOfBareName(hdr, name, read, start, off);
    }
  }

  /** The pair whose '=' is at `eq`: its value when the name matches, and the position
      of the ';' that ends it. */
  method TakePair(hdr: seq<byte>, name: seq<byte>, start: nat, eq: nat, ghost read: Reader)
    returns (matched: bool, off: nat, valOff: nat, valLen: nat)
    requires IsReader(read, name) && start <= eq < |hdr| && !Blank(hdr[start]) && hdr[eq] == EQ
    requires forall k :: start <= k < eq ==> hdr[k] != EQ && hdr[k] != SEMI
    ensures eq < off <= |hdr|
    ensures matched ==> valOff + valLen <= |hdr|
    ensures Scan(read, hdr[start..])
         == (if matched then [hdr[valOff..valOff + valLen]] else []) + Scan(read, hdr[off..])
  {
    off := ValueEnd(hdr, eq + 1);
    matched, valOff, valLen := MatchPair(hdr, name, start, eq, off);
    ValuesFromEq(hdr, name, read, start, eq, off);
  }

  method MatchPair(hdr: seq<byte>, name: seq<byte>, start: nat, eq: nat, stop: nat)
    returns (matched: bool, valOff: nat, valLen: nat)
    requires start <= eq < stop <= |hdr| && (stop < |hdr| ==> !Blank(hdr[stop]))
    ensures matched ==> valOff + valLen <= |hdr|
    ensures (if matched then [hdr[valOff..valOff + valLen]] else [])
         == PairValue(hdr[start..eq], hdr[eq + 1..stop], name)
  {
    var nameEnd := TrimEnd(hdr, start, eq);
    matched := hdr[start..nameEnd] == name;
    valOff, valLen := 0, 0;
    if matched {
      valOff, valLen := TakeValue(hdr, eq + 1, stop);
    }
  }

  method TakeValue(hdr: seq<byte>, from: nat, stop: nat) returns (valOff: nat, valLen: nat)
    requires from <= stop <= |hdr| && (stop < |hdr| ==> !Blank(hdr[stop]))
    ensures valOff + valLen <= |hdr|
    ensures hdr[valOff..valOff + valLen] == Unquote(TrimRight(TrimLeft(hdr[from..stop])))
  {
    var vs := SkipBlanks(hdr, from, stop);
    var ve := TrimEnd(hdr, vs, stop);
    UnquoteSlice(hdr, vs, ve);
    if ve - vs >= 2 && hdr[vs] == QUOTE && hdr[ve - 1] == QUOTE {
      vs, ve := vs + 1, ve - 1;
    }
    valOff, valLen := vs, ve - vs;
  }

  lemma UnquoteSlice(hdr: seq<byte>, vs: nat, ve: nat)
    requires vs <= ve <= |hdr|
    ensures Unquote(hdr[vs..ve])
         == if ve - vs >= 2 && hdr[vs] == QUOTE && hdr[ve - 1] == QUOTE then hdr[vs + 1..ve - 1] else hdr[vs..ve]
  {
    if ve - vs >= 2 { SubSlice(hdr, vs, ve, 1, ve - vs - 1); }
  }
}
