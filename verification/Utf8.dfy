/** utf8Bytes of challenge.js: the hand-written UTF-8 encoder under the proof of work.
    Its meaning is fixed by an independent decoder that follows the ABNF of section 4
    of RFC 3629.  Bit fields are written arithmetically (c >> 6 is c / 64, and an "or"
    of disjoint fields is their sum). */
module Utf8 {
  import opened Wrappers
  import opened Bytes

  /** A UTF-16 code unit, as charCodeAt returns it. */
  type unit = x: int | 0 <= x < 0x1_0000

  /** A Unicode scalar value. */
  type scalar = x: int | 0 <= x <= 0x10_FFFF && !(0xD800 <= x < 0xE000)

  predicate High(c: unit) { 0xD800 <= c < 0xDC00 }
  predicate Low(c: unit) { 0xDC00 <= c < 0xE000 }

  /** The first character of a UTF-16 string and the units it takes: a surrogate pair
      is consumed together, an unpaired surrogate reads as U+FFFD.  `next` is the unit
      after `c`, 0 at the end. */
  function First(c: unit, next: unit): (r: (scalar, nat))
    ensures r.1 == 1 || (r.1 == 2 && Low(next))
  {
    if High(c) && Low(next) then (0x1_0000 + (c - 0xD800) * 0x400 + (next - 0xDC00), 2)
    else if High(c) || Low(c) then (0xFFFD, 1)
    else (c, 1)
  }

  function UnitAt(s: seq<unit>, i: nat): unit { if i < |s| then s[i] else 0 }

  /** The text a UTF-16 string stands for. */
  function Scalars(s: seq<unit>): seq<scalar>
  {
    if s == [] then []
    else
      var (u, n) := First(s[0], UnitAt(s, 1));
      [u] + Scalars(s[n..])
  }

  /** One scalar value in UTF-8 (section 3 of RFC 3629). */
  function Encode(u: scalar): (r: seq<byte>)
    ensures 1 <= |r| <= 4
  {
    if u < 0x80 then [u]
    else if u < 0x800 then [0xC0 + u / 64, 0x80 + u % 64]
    else if u < 0x1_0000 then [0xE0 + u / 64 / 64, 0x80 + u / 64 % 64, 0x80 + u % 64]
    else [0xF0 + u / 64 / 64 / 64, 0x80 + u / 64 / 64 % 64, 0x80 + u / 64 % 64, 0x80 + u % 64]
  }

  function EncodeAll(us: seq<scalar>): seq<byte>
  {
    if us == [] then [] else Encode(us[0]) + EncodeAll(us[1..])
  }

  // ----- the decoder of RFC 3629, section 4

  predicate Tail(b: byte) { 0x80 <= b <= 0xBF }

  predicate Utf8_2(a: byte, b: byte)
  {
    0xC2 <= a <= 0xDF && Tail(b)
  }

  predicate Utf8_3(a: byte, b: byte, c: byte)
  {
    && Tail(b) && Tail(c)
    && ((a == 0xE0 && b >= 0xA0) || 0xE1 <= a <= 0xEC || (a == 0xED && b <= 0x9F) || 0xEE <= a <= 0xEF)
  }

  predicate Utf8_4(a: byte, b: byte, c: byte, d: byte)
  {
    && Tail(b) && Tail(c) && Tail(d)
    && ((a == 0xF0 && b >= 0x90) || 0xF1 <= a <= 0xF3 || (a == 0xF4 && b <= 0x8F))
  }

  /** Six more payload bits from a continuation byte. */
  function Glue(hi: int, tail: byte): int { hi * 64 + tail - 0x80 }

  /** The UTF8-1 .. UTF8-4 alternatives: one character and its length. */
  function DecodeOne(s: seq<byte>): (r: Option<(scalar, nat)>)
    ensures r.Some? ==> 1 <= r.value.1 <= |s|
  {
    if |s| >= 1 && s[0] < 0x80 then Some((s[0], 1))
    else if |s| >= 2 && Utf8_2(s[0], s[1]) then Some((Glue(s[0] - 0xC0, s[1]), 2))
    else if |s| >= 3 && Utf8_3(s[0], s[1], s[2]) then Some((Glue(Glue(s[0] - 0xE0, s[1]), s[2]), 3))
    else if |s| >= 4 && Utf8_4(s[0], s[1], s[2], s[3]) then
      Some((Glue(Glue(Glue(s[0] - 0xF0, s[1]), s[2]), s[3]), 4))
    else None
  }

  /** None exactly when the bytes are not well-formed UTF-8. */
  function Decode(s: seq<byte>): Option<seq<scalar>>
    decreases |s|
  {
    if s == [] then Some([])
    else match DecodeOne(s)
      case None => None
      case Some((u, n)) =>
        match Decode(s[n..])
        case None => None
        case Some(us) => Some([u] + us)
  }

  lemma DecodeOneEncode(u: scalar, rest: seq<byte>)
    ensures DecodeOne(Encode(u) + rest) == Some((u, |Encode(u)|))
  {
    if 0x800 <= u < 0x1_0000 {
      DecodeThree(u, rest);
    } else if 0x1_0000 <= u {
      DecodeFour(u, rest);
    }
  }

  lemma DecodeThree(u: scalar, rest: seq<byte>)
    requires 0x800 <= u < 0x1_0000
    ensures DecodeOne(Encode(u) + rest) == Some((u, 3))
  {
    GlueBack(u / 64);
    GlueBack(u);
  }

  lemma DecodeFour(u: scalar, rest: seq<byte>)
    requires 0x1_0000 <= u
    ensures DecodeOne(Encode(u) + rest) == Some((u, 4))
  {
    GlueBack(u / 64 / 64);
    GlueBack(u / 64);
    GlueBack(u);
  }

  lemma GlueBack(u: nat)
    ensures Glue(u / 64, 0x80 + u % 64) == u
  {
  }

  lemma EncodeDecodeOne(s: seq<byte>)
    requires DecodeOne(s).Some?
    ensures Encode(DecodeOne(s).value.0) == s[..DecodeOne(s).value.1]
  {
    var n := DecodeOne(s).value.1;
    if n == 2 {
      GlueParts(s[0] - 0xC0, s[1]);
    } else if n == 3 {
      EncodeThree(s[0], s[1], s[2]);
    } else if n == 4 {
      EncodeFour(s[0], s[1], s[2], s[3]);
    }
  }

  lemma EncodeThree(a: byte, b: byte, c: byte)
    requires Utf8_3(a, b, c)
    ensures Encode(Glue(Glue(a - 0xE0, b), c)) == [a, b, c]
  {
    GlueParts(a - 0xE0, b);
    GlueParts(Glue(a - 0xE0, b), c);
  }

  lemma EncodeFour(a: byte, b: byte, c: byte, d: byte)
    requires Utf8_4(a, b, c, d)
    ensures Encode(Glue(Glue(Glue(a - 0xF0, b), c), d)) == [a, b, c, d]
  {
    GlueParts(a - 0xF0, b);
    GlueParts(Glue(a - 0xF0, b), c);
    GlueParts(Glue(Glue(a - 0xF0, b), c), d);
  }

  lemma GlueParts(hi: nat, tail: byte)
    requires Tail(tail)
    ensures Glue(hi, tail) / 64 == hi && Glue(hi, tail) % 64 == tail - 0x80
  {
  }

  /** The encoding of any scalar sequence is well formed and decodes to it. */
  lemma {:induction false} DecodeEncodeAll(us: seq<scalar>)
    ensures Decode(EncodeAll(us)) == Some(us)
  {
    if us != [] {
      DecodeEncodeAll(us[1..]);
      DecodeCons(us[0], EncodeAll(us[1..]), us[1..]);
      assert [us[0]] + us[1..] == us;
    }
  }

  lemma DecodeCons(u: scalar, rest: seq<byte>, us: seq<scalar>)
    requires Decode(rest) == Some(us)
    ensures Decode(Encode(u) + rest) == Some([u] + us)
  {
    DecodeOneEncode(u, rest);
    assert (Encode(u) + rest)[|Encode(u)|..] == rest;
  }

  lemma EncodeAllCons(u: scalar, us: seq<scalar>)
    ensures EncodeAll([u] + us) == Encode(u) + EncodeAll(us)
  {
    assert ([u] + us)[1..] == us;
  }

  /** Conversely the decoder accepts nothing but encodings: no overlong forms. */
  lemma {:induction false} EncodeAllDecode(s: seq<byte>)
    ensures Decode(s).Some? ==> EncodeAll(Decode(s).value) == s
    decreases |s|
  {
    if s != [] && Decode(s).Some? {
      EncodeDecodeOne(s);
      var (u, n) := DecodeOne(s).value;
      EncodeAllDecode(s[n..]);
      EncodeAllCons(u, Decode(s[n..]).value);
    }
  }

  /** What utf8Bytes computes. */
  function Utf8Of(s: seq<unit>): seq<byte>
  {
    EncodeAll(Scalars(s))
  }

  lemma Utf8Step(s: seq<unit>)
    requires s != []
    ensures First(s[0], UnitAt(s, 1)).1 <= |s|
    ensures Utf8Of(s) == Encode(First(s[0], UnitAt(s, 1)).0) + Utf8Of(s[First(s[0], UnitAt(s, 1)).1..])
  {
    var (u, n) := First(s[0], UnitAt(s, 1));
    EncodeAllCons(u, Scalars(s[n..]));
  }

  lemma Utf8StepAt(str: seq<unit>, i: nat)
    requires i < |str|
    ensures var (u, n) := First(str[i], UnitAt(str, i + 1));
            i + n <= |str| && Utf8Of(str[i..]) == Encode(u) + Utf8Of(str[i + n..])
  {
    var n := First(str[i], UnitAt(str, i + 1)).1;
    Utf8Step(str[i..]);
    assert str[i..][n..] == str[i + n..];
  }

  /** One turn of the encoder's loop: what it pushes, and how many units it took. */
  method PushUnit(unit0: unit, unit1: unit) returns (pushed: seq<byte>, taken: nat)
    ensures pushed == Encode(First(unit0, unit1).0) && taken == First(unit0, unit1).1
  {
    var c: int := unit0;
    if c < 0x80 { return [c], 1; }
    if c < 0x800 { return [0xC0 + c / 64, 0x80 + c % 64], 1; }
    if 0xD800 <= c < 0xDC00 {
      if 0xDC00 <= unit1 < 0xE000 {
        c := 0x1_0000 + (c - 0xD800) * 0x400 + (unit1 - 0xDC00);
        assert First(unit0, unit1) == (c, 2);
        return [0xF0 + c / 64 / 64 / 64, 0x80 + c / 64 / 64 % 64, 0x80 + c / 64 % 64, 0x80 + c % 64], 2;
      }
      c := 0xFFFD;
    } else if 0xDC00 <= c < 0xE000 {
      c := 0xFFFD;
    }
    assert First(unit0, unit1) == (c, 1);
    return [0xE0 + c / 64 / 64, 0x80 + c / 64 % 64, 0x80 + c % 64], 1;
  }

  /** The encoder. */
  method Utf8Bytes(str: seq<unit>) returns (out: seq<byte>)
    ensures out == Utf8Of(str)
  {
    out := [];
    var i := 0;
    assert str[0..] == str;
    while i < |str|
      invariant 0 <= i <= |str| && out + Utf8Of(str[i..]) == Utf8Of(str)
    {
      out, i := Push(out, str, i);
    }
    assert str[|str|..] == [];
  }

  method Push(out0: seq<byte>, str: seq<unit>, i0: nat) returns (out: seq<byte>, i: nat)
    requires i0 < |str|
    ensures i0 < i <= |str| && out + Utf8Of(str[i..]) == out0 + Utf8Of(str[i0..])
  {
    var pushed, taken := PushUnit(str[i0], UnitAt(str, i0 + 1));
    Utf8StepAt(str, i0);
    out, i := out0 + pushed, i0 + taken;
    Regroup(out0, pushed, Utf8Of(str[i..]));
  }

  /** The result is well-formed UTF-8 and decodes to the string's text; and no other
      well-formed bytes do. */
  lemma Utf8Meaning(str: seq<unit>, b: seq<byte>)
    ensures Decode(b) == Some(Scalars(str)) <==> b == Utf8Of(str)
  {
    DecodeEncodeAll(Scalars(str));
    EncodeAllDecode(b);
  }

  // ----- encoding text in pieces

  /** Encoding piece by piece is encoding the whole, unless the cut splits a pair. */
  lemma {:induction false} ScalarsConcat(a: seq<unit>, b: seq<unit>)
    requires a == [] || b == [] || !High(a[|a| - 1]) || !Low(b[0])
    ensures Scalars(a + b) == Scalars(a) + Scalars(b)
    decreases |a|
  {
    if a == [] {
      assert a + b == b;
    } else {
      var (u, n) := First(a[0], UnitAt(a, 1));
      FirstConcat(a, b);
      ScalarsConcat(a[n..], b);
      Regroup([u], Scalars(a[n..]), Scalars(b));
    }
  }

  /** The first character is not affected by what follows, unless it would be cut. */
  lemma FirstConcat(a: seq<unit>, b: seq<unit>)
    requires a != [] && (b == [] || !High(a[|a| - 1]) || !Low(b[0]))
    ensures First((a + b)[0], UnitAt(a + b, 1)) == First(a[0], UnitAt(a, 1))
    ensures var n := First(a[0], UnitAt(a, 1)).1; n <= |a| && (a + b)[n..] == a[n..] + b
  {
  }

  lemma {:induction false} EncodeAllConcat(us: seq<scalar>, vs: seq<scalar>)
    ensures EncodeAll(us + vs) == EncodeAll(us) + EncodeAll(vs)
  {
    if us == [] {
      assert us + vs == vs;
    } else {
      var u, rest := us[0], us[1..];
      EncodeAllConcat(rest, vs);
      assert us == [u] + rest;
      Regroup([u], rest, vs);
      EncodeAllCons(u, rest);
      EncodeAllCons(u, rest + vs);
      Regroup(Encode(u), EncodeAll(rest), EncodeAll(vs));
    }
  }

  lemma Utf8Concat(a: seq<unit>, b: seq<unit>)
    requires a == [] || b == [] || !High(a[|a| - 1]) || !Low(b[0])
    ensures Utf8Of(a + b) == Utf8Of(a) + Utf8Of(b)
  {
    ScalarsConcat(a, b);
    EncodeAllConcat(Scalars(a), Scalars(b));
  }

  /** ASCII text is its own encoding. */
  lemma {:induction false} Utf8Ascii(s: seq<unit>)
    requires forall i :: 0 <= i < |s| ==> s[i] < 0x80
    ensures Utf8Of(s) == s
  {
    if s != [] {
      Utf8Ascii(s[1..]);
      Utf8Step(s);
    }
  }
}
