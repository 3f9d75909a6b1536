/** Which messages the ClientHello parser accepts, and what it takes from extension bodies that
    need not be well formed, said by cutting the bytes into pieces. */
module Ja4Grammar {
  import opened Wrappers
  import opened Bytes
  import opened Ja4Parser

  // ----- vectors

  /** v behind its length in one byte, then rest. */
  ghost predicate IsVec8(s: seq<byte>, v: seq<byte>, rest: seq<byte>) { |v| < 256 && s == [|v|] + v + rest }

  /** v behind its length in two bytes, the high one first, then rest. */
  ghost predicate IsVec16(s: seq<byte>, v: seq<byte>, rest: seq<byte>)
  {
    |v| < 0x1_0000 && s == [|v| / 256, |v| % 256] + v + rest
  }

  lemma Vec8Means(s: seq<byte>, v: seq<byte>, rest: seq<byte>)
    ensures Vec8(s) == Some((v, rest)) <==> IsVec8(s, v, rest)
  {
    if IsVec8(s, v, rest) { assert s[0] == |v| && s[1..1 + |v|] == v && s[1 + |v|..] == rest; }
    if Vec8(s) == Some((v, rest)) { assert s == [s[0]] + s[1..1 + s[0]] + s[1 + s[0]..]; }
  }

  lemma Vec16Means(s: seq<byte>, v: seq<byte>, rest: seq<byte>)
    ensures Vec16(s) == Some((v, rest)) <==> IsVec16(s, v, rest)
  {
    if IsVec16(s, v, rest) {
      assert s[0] == |v| / 256 && s[1] == |v| % 256 && s[2..2 + |v|] == v && s[2 + |v|..] == rest;
    }
    if Vec16(s) == Some((v, rest)) {
      HighLow(s[0], s[1]);
      var n := U16At(s, 0);
      assert s == [s[0], s[1]] + s[2..2 + n] + s[2 + n..];
    }
  }

  lemma HighLow(a: byte, b: byte)
    ensures (256 * (a as int) + b) / 256 == a && (256 * (a as int) + b) % 256 == b
  {
  }

  // ----- extension bodies

  /** A type-13 body: its list when there is one of even length, whatever follows; else nothing. */
  lemma SigAlgsMean(body: seq<byte>)
    ensures forall raw, rest :: IsVec16(body, raw, rest) && |raw| % 2 == 0 ==> SigAlgsIn(body) == NonGrease(U16s(raw))
    ensures (forall raw, rest :: IsVec16(body, raw, rest) ==> |raw| % 2 != 0) ==> SigAlgsIn(body) == []
  {
    forall raw, rest | IsVec16(body, raw, rest) ensures Vec16(body) == Some((raw, rest)) {
      Vec16Means(body, raw, rest);
    }
    if Vec16(body).Some? { Vec16Means(body, Vec16(body).value.0, Vec16(body).value.1); }
  }

  /** A type-43 body: the top of its list when there is one of even length; else nothing. */
  lemma VersionsMean(body: seq<byte>)
    ensures forall raw, rest :: IsVec8(body, raw, rest) && |raw| % 2 == 0 ==>
      VersionsIn(body) == Some(MaxOf(NonGrease(U16s(raw))))
    ensures (forall raw, rest :: IsVec8(body, raw, rest) ==> |raw| % 2 != 0) ==> VersionsIn(body) == None
  {
    forall raw, rest | IsVec8(body, raw, rest) ensures Vec8(body) == Some((raw, rest)) { Vec8Means(body, raw, rest); }
    if Vec8(body).Some? { Vec8Means(body, Vec8(body).value.0, Vec8(body).value.1); }
  }

  /** A type-16 body: two bytes of a list length that is not zero and fits, then a name behind its
      length. */
  lemma AlpnMeans(body: seq<byte>, name: seq<byte>)
    ensures AlpnName(body) == Some(name) <==>
      && |body| >= 2 && 1 <= 256 * (body[0] as int) + body[1] <= |body| - 2
      && name != [] && exists rest :: IsVec8(body[2..], name, rest)
  {
    if |body| >= 2 {
      forall rest | IsVec8(body[2..], name, rest) ensures Vec8(body[2..]) == Some((name, rest)) {
        Vec8Means(body[2..], name, rest);
      }
      if Vec8(body[2..]).Some? { Vec8Means(body[2..], Vec8(body[2..]).value.0, Vec8(body[2..]).value.1); }
      NameAt(body);
    }
  }

  lemma NameAt(body: seq<byte>)
    requires |body| >= 2
    ensures |body| >= 3 ==> body[2..][0] == body[2]
    ensures |body| >= 3 && body[2] + 3 <= |body| ==> body[3..3 + body[2]] == body[2..][1..1 + body[2]]
  {
    assert body[2..] == body[2..|body|];
    if |body| >= 3 {
      var n: nat := body[2];
      if n + 3 <= |body| { SubSlice(body, 2, |body|, 1, 1 + n); }
    }
  }

  // ----- the message

  /** A block of extensions, each a type of two bytes and a vector, and up to three bytes left. */
  ghost predicate Whole(s: seq<byte>)
    decreases |s|
  {
    |s| < 4 || exists data, rest :: IsVec16(s[2..], data, rest) && |rest| < |s| && Whole(rest)
  }

  lemma {:induction false} WalkMeans(step: Step, s: seq<byte>, f: Facts)
    ensures Walk(step, s, f).Some? <==> Whole(s)
    decreases |s|
  {
    if |s| >= 4 {
      var t := s[2..];
      assert U16At(t, 0) == U16At(s, 2);
      if Vec16(t).Some? {
        var (data, rest) := Vec16(t).value;
        Vec16Means(t, data, rest);
        assert rest == s[4 + U16At(s, 2)..];
        WalkMeans(step, rest, step(f, U16At(s, 0), s[4..4 + U16At(s, 2)]));
      }
      if Whole(s) {
        var data, rest :| IsVec16(t, data, rest) && |rest| < |s| && Whole(rest);
        Vec16Means(t, data, rest);
      }
    }
  }

  /** Compression methods, and then nothing or a block of extensions and whatever follows it. */
  ghost predicate IsTail(s: seq<byte>)
  {
    exists comp, after :: IsVec8(s, comp, after)
      && (after == [] || exists block, rest :: IsVec16(after, block, rest) && Whole(block))
  }

  /** Version and random, a session identifier, cipher suites in pairs, and a tail. */
  ghost predicate IsBody(b: seq<byte>)
  {
    |b| >= 34 && exists sid, r1, ciphers, r2 ::
      IsVec8(b[34..], sid, r1) && IsVec16(r1, ciphers, r2) && |ciphers| % 2 == 0 && IsTail(r2)
  }

  /** A handshake message of type 1 whose three-byte length covers a body, and whatever follows. */
  ghost predicate IsHello(msg: seq<byte>)
  {
    && |msg| >= 4 && msg[0] == 1
    && var n := 65536 * (msg[1] as int) + 256 * (msg[2] as int) + msg[3];
       4 + n <= |msg| && IsBody(msg[4..4 + n])
  }

  lemma TailMeans(s: seq<byte>, f: Facts)
    ensures ParseTail(s, f).Some? <==> IsTail(s)
  {
    if IsTail(s) {
      var comp, after :| IsVec8(s, comp, after)
        && (after == [] || exists block, rest :: IsVec16(after, block, rest) && Whole(block));
      Vec8Means(s, comp, after);
      if after != [] {
        var block, rest :| IsVec16(after, block, rest) && Whole(block);
        Vec16Means(after, block, rest);
        WalkMeans(STEP, block, f);
      }
    }
    if ParseTail(s, f).Some? {
      var (comp, after) := Vec8(s).value;
      Vec8Means(s, comp, after);
      if after != [] {
        var (block, rest) := Vec16(after).value;
        Vec16Means(after, block, rest);
        WalkMeans(STEP, block, f);
      }
    }
  }

  lemma BodyMeans(b: seq<byte>)
    ensures ParseBody(b).Some? <==> IsBody(b)
  {
    if IsBody(b) {
      var sid, r1, ciphers, r2 :|
        IsVec8(b[34..], sid, r1) && IsVec16(r1, ciphers, r2) && |ciphers| % 2 == 0 && IsTail(r2);
      Vec8Means(b[34..], sid, r1);
      Vec16Means(r1, ciphers, r2);
      TailMeans(r2, BaseFacts(U16At(b, 0), U16s(ciphers)));
    }
    if ParseBody(b).Some? {
      var (sid, r1) := Vec8(b[34..]).value;
      var (ciphers, r2) := Vec16(r1).value;
      Vec8Means(b[34..], sid, r1);
      Vec16Means(r1, ciphers, r2);
      TailMeans(r2, BaseFacts(U16At(b, 0), U16s(ciphers)));
    }
  }

  /** The parser accepts exactly these messages. */
  lemma HelloMeans(msg: seq<byte>)
    ensures ParseHello(msg).Some? <==> IsHello(msg)
  {
    if |msg| >= 4 && msg[0] == 1 {
      var n := 65536 * (msg[1] as int) + 256 * (msg[2] as int) + msg[3];
      if 4 + n <= |msg| { BodyMeans(msg[4..4 + n]); }
    }
  }
}
