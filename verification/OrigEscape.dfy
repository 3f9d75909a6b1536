/** How the URI a visitor asked for is carried through the challenge as a query value. */
module OrigEscape {
  import opened Bytes

  const PERCENT: byte := 37
  const AMP: byte := 38
  const PLUS: byte := 43
  const SPACE: byte := 32
  const HEX: seq<byte> := [48, 49, 50, 51, 52, 53, 54, 55, 56, 57, 65, 66, 67, 68, 69, 70]

  predicate Special(c: byte) { c == AMP || c == SEMI || c == PLUS }

  // ----- the readers

  /** The value of a hexadecimal digit of either case, -1 for any other byte. */
  function HexValue(c: byte): (v: int)
    ensures -1 <= v < 16
  {
    if 48 <= c <= 57 then c - 48
    else if 65 <= c <= 70 then c - 55
    else if 97 <= c <= 102 then c - 87
    else -1
  }

  predicate IsHex(c: byte) { HexValue(c) >= 0 }

  /** A percent sign and two hexadecimal digits stand at the front. */
  predicate Triple(s: seq<byte>) { |s| >= 3 && s[0] == PERCENT && IsHex(s[1]) && IsHex(s[2]) }

  /** Percent-decoding; a malformed sequence is kept as it stands.  A query reader takes
      '+' for a space, a path reader does not. */
  function Decode(query: bool, s: seq<byte>): seq<byte>
  {
    if s == [] then []
    else if Triple(s) then [TripleValue(s)] + Decode(query, s[3..])
    else [Plain(query, s[0])] + Decode(query, s[1..])
  }

  function TripleValue(s: seq<byte>): byte
    requires Triple(s)
  {
    16 * HexValue(s[1]) + HexValue(s[2])
  }

  function Plain(query: bool, c: byte): byte { if query && c == PLUS then SPACE else c }

  // ----- the escaper

  function EscapeByte(c: byte): (r: seq<byte>)
    ensures |r| == if Special(c) then 3 else 1
  {
    if Special(c) then [PERCENT, HEX[c / 16], HEX[c % 16]] else [c]
  }

  /** Three bytes are written as percent triples; nothing else is encoded. */
  lemma EscapeByteText(c: byte)
    ensures EscapeByte(c) ==
      if c == '&' as int then Ascii("%26") else if c == ';' as int then Ascii("%3B")
      else if c == '+' as int then Ascii("%2B") else [c]
  {
    assert Ascii("%26") == [37, 50, 54] && Ascii("%3B") == [37, 51, 66] && Ascii("%2B") == [37, 50, 66];
    assert HEX[2] == 50 && HEX[3] == 51 && HEX[6] == 54 && HEX[11] == 66;
  }

  function Escaped(s: seq<byte>): seq<byte>
  {
    if s == [] then [] else Escaped(s[..|s| - 1]) + EscapeByte(s[|s| - 1])
  }

  /** ngx_unmask_orig_escaped_len. */
  method EscapedLen(src: seq<byte>) returns (n: nat)
    ensures n == |Escaped(src)|
  {
    var extra := 0;
    for i := 0 to |src|
      invariant |Escaped(src[..i])| == i + extra
    {
      assert src[..i + 1][..i] == src[..i];
      if Special(src[i]) { extra := extra + 2; }
    }
    assert src[..|src|] == src;
    n := |src| + extra;
  }

  /** ngx_unmask_orig_escape: returns where the writing stopped. */
  method Escape(dst: array<byte>, at: nat, src: seq<byte>) returns (stop: nat)
    requires at + |Escaped(src)| <= dst.Length
    modifies dst
    ensures stop == at + |Escaped(src)| && dst[at..stop] == Escaped(src)
    ensures dst[..at] == old(dst[..at]) && dst[stop..] == old(dst[stop..])
  {
    stop := at;
    ghost var was := dst[..];
    for i := 0 to |src|
      invariant stop == at + |Escaped(src[..i])| <= dst.Length && dst[at..stop] == Escaped(src[..i])
      invariant dst[..at] == was[..at] && dst[stop..] == was[stop..]
    {
      assert src[..i + 1][..i] == src[..i];
      EscapedGrows(src, i + 1);
      stop := Put(dst, at, stop, src[i], Escaped(src[..i]), was);
    }
    assert src[..|src|] == src;
  }

  /** One turn of the loop. */
  method Put(dst: array<byte>, ghost at: nat, d: nat, c: byte, ghost done: seq<byte>, ghost was: seq<byte>)
    returns (stop: nat)
    requires at <= d && d + |EscapeByte(c)| <= dst.Length == |was| && dst[at..d] == done
    requires dst[..at] == was[..at] && dst[d..] == was[d..]
    modifies dst
    ensures stop == d + |EscapeByte(c)| && dst[at..stop] == done + EscapeByte(c)
    ensures dst[..at] == was[..at] && dst[stop..] == was[stop..]
  {
    var hi, lo := HEX[c / 16], HEX[c % 16];
    ghost var before := dst[..];
    stop := d;
    if Special(c) {
      dst[stop], dst[stop + 1], dst[stop + 2] := PERCENT, hi, lo;
      stop := stop + 3;
      assert dst[d..stop] == EscapeByte(c);
    } else {
      dst[stop] := c;
      stop := stop + 1;
      assert dst[d..stop] == EscapeByte(c);
    }
    assert dst[..d] == before[..d] && dst[stop..] == before[stop..];
    Placed(before, dst[..], at, d, stop, was);
  }

  /** The bytes from d to stop have been replaced. */
  lemma Placed(before: seq<byte>, now: seq<byte>, at: nat, d: nat, stop: nat, was: seq<byte>)
    requires at <= d <= stop <= |before| == |now| == |was|
    requires now[..d] == before[..d] && now[stop..] == before[stop..]
    requires before[..at] == was[..at] && before[d..] == was[d..]
    ensures now[at..stop] == before[at..d] + now[d..stop] && now[..at] == was[..at] && now[stop..] == was[stop..]
  {
    assert now[..at] == now[..d][..at] && before[..at] == before[..d][..at];
    assert now[at..d] == now[..d][at..] && before[at..d] == before[..d][at..];
    assert before[stop..] == before[d..][stop - d..] && was[stop..] == was[d..][stop - d..];
  }

  lemma {:induction false} EscapedGrows(s: seq<byte>, i: nat)
    requires i <= |s|
    ensures |Escaped(s[..i])| <= |Escaped(s)|
    decreases |s| - i
  {
    if i == |s| {
      assert s[..i] == s;
    } else {
      assert s[..i + 1][..i] == s[..i];
      EscapedGrows(s, i + 1);
    }
  }

  // ----- what the readers see

  lemma CleanByte(c: byte)
    ensures AMP !in EscapeByte(c) && SEMI !in EscapeByte(c) && PLUS !in EscapeByte(c)
    ensures Special(c) ==> EscapeByte(c)[0] == PERCENT
  {
  }

  /** Nothing that ends a query value, drops it or reads as a space. */
  lemma {:induction false} NoSpecials(s: seq<byte>)
    ensures AMP !in Escaped(s) && SEMI !in Escaped(s) && PLUS !in Escaped(s)
  {
    if s != [] {
      NoSpecials(s[..|s| - 1]);
      CleanByte(s[|s| - 1]);
    }
  }

  lemma {:induction false} EscapedConcat(a: seq<byte>, b: seq<byte>)
    ensures Escaped(a + b) == Escaped(a) + Escaped(b)
  {
    if b == [] {
      assert a + b == a;
    } else {
      var i := |b| - 1;
      assert (a + b)[..|a + b| - 1] == a + b[..i];
      EscapedConcat(a, b[..i]);
    }
  }

  lemma EscapedHead(s: seq<byte>)
    requires s != []
    ensures Escaped(s) == EscapeByte(s[0]) + Escaped(s[1..])
  {
    EscapedConcat([s[0]], s[1..]);
    assert [s[0]] + s[1..] == s;
    assert Escaped([s[0]]) == EscapeByte(s[0]) by { assert [s[0]][..0] == []; }
  }

  /** The two bytes after an escaped one are hexadecimal exactly when they were. */
  lemma {:induction false} PairKept(t: seq<byte>)
    ensures var e := Escaped(t);
      && (|e| >= 2 && IsHex(e[0]) && IsHex(e[1]) <==> |t| >= 2 && IsHex(t[0]) && IsHex(t[1]))
      && (|t| >= 2 && IsHex(t[0]) && IsHex(t[1]) ==> e == t[..2] + Escaped(t[2..]))
  {
    if t != [] {
      HexHead(t);
      if |t| >= 2 {
        HexHead(t[1..]);
        assert t[1..][1..] == t[2..];
      }
    }
  }

  lemma HexHead(t: seq<byte>)
    requires t != []
    ensures Escaped(t) != [] && (IsHex(Escaped(t)[0]) <==> IsHex(t[0]))
    ensures IsHex(t[0]) ==> Escaped(t) == [t[0]] + Escaped(t[1..])
  {
    EscapedHead(t);
  }

  /** Escaping neither makes nor breaks a percent triple at the front. */
  lemma TripleKept(c: byte, t: seq<byte>)
    requires !Special(c)
    ensures Triple([c] + Escaped(t)) <==> Triple([c] + t)
    ensures Triple([c] + t) ==> Escaped(t) == t[..2] + Escaped(t[2..])
  {
    PairKept(t);
  }

  lemma SpecialTriple(c: byte, rest: seq<byte>)
    requires Special(c)
    ensures var e := EscapeByte(c) + rest;
      Triple(e) && TripleValue(e) == c && e[3..] == rest
  {
  }

  lemma DecodeTriple(query: bool, c: byte, t: seq<byte>, t': seq<byte>)
    requires Triple([c] + t) && |t'| >= 2 && t'[..2] == t[..2]
    ensures Decode(query, [c] + t') == [TripleValue([c] + t)] + Decode(query, t'[2..])
  {
    var s := [c] + t';
    assert s[1] == t'[..2][0] == t[0] && s[2] == t'[..2][1] == t[1];
    assert s[3..] == t'[2..];
  }

  lemma DecodePlain(query: bool, c: byte, t: seq<byte>)
    requires !Triple([c] + t)
    ensures Decode(query, [c] + t) == [Plain(query, c)] + Decode(query, t)
  {
    assert ([c] + t)[1..] == t;
  }

  /** Either reader gets back from the escaped value what a path reader gets from the
      original URI. */
  lemma {:induction false} DecodeEscaped(query: bool, s: seq<byte>)
    ensures Decode(query, Escaped(s)) == Decode(false, s)
    decreases |s|
  {
    if s != [] {
      EscapedHead(s);
      var c, t := s[0], s[1..];
      assert s == [c] + t;
      if Special(c) {
        DecodeEscaped(query, t);
        SpecialTriple(c, Escaped(t));
        DecodePlain(false, c, t);
      } else {
        TripleKept(c, t);
        if Triple(s) {
          DecodeEscaped(query, t[2..]);
          DecodeTriple(query, c, t, Escaped(t));
          DecodeTriple(false, c, t, t);
        } else {
          DecodeEscaped(query, t);
          DecodePlain(query, c, Escaped(t));
          DecodePlain(false, c, t);
        }
      }
    }
  }
}
