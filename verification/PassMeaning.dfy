/** What a verifying pass cookie proves about itself: its text, its age, and the keyed hash or
    the proof of work behind it, said from the entry's dot-separated segments alone. */
module PassMeaning {
  import opened Wrappers
  import opened Bytes
  import opened Numerals
  import opened LeadingZeros
  import opened Sha256
  import opened PowHasher
  import opened BvParser
  import opened EntrySearch
  import opened PassCookie

  // ----- the texts

  lemma Texts()
    ensures POW2 == Ascii("pow2") && BV == Ascii("_bv") && POW_SEED == Ascii(":pow_seed")
    ensures [DOT] == Ascii(".") && [TILDE] == Ascii("~") && [COLON] == Ascii(":")
    ensures [EQ] == Ascii("=") && [SEMI] == Ascii(";") && [QUOTE] == Ascii("\"")
  {
  }

  /** The word the daemon signs for each kind. */
  function Word(k: Kind): string
  {
    match k
    case CaptchaPass => "captcha"
    case RebindPass => "rebind"
    case PassthroughPass => "passthrough"
    case PowPass => "pow"
  }

  lemma KindWord(tail: seq<byte>, k: Kind)
    ensures KindOf(tail) == Some(k) <==> tail == Ascii(Word(k))
  {
    assert Ascii("rebind") == [114, 101, 98, 105, 110, 100];
    assert Ascii("passthrough") == [112, 97, 115, 115, 116, 104, 114, 111, 117, 103, 104];
    assert Ascii("captcha") == [99, 97, 112, 116, 99, 104, 97];
    assert Ascii("pow") == [112, 111, 119];
  }

  // ----- digits

  lemma HexOfDigits(v: byte)
    ensures HexPair(HexDigit(v / 16), HexDigit(v % 16), v)
  {
  }

  lemma {:induction false} HexMeans(s: seq<byte>)
    ensures IsHex(Hex(s), s)
  {
    if s != [] {
      HexOfDigits(s[0]);
      HexMeans(s[1..]);
      HexBehind(HexDigit(s[0] / 16), HexDigit(s[0] % 16), Hex(s[1..]), s);
    }
  }

  lemma HexBehind(a: byte, b: byte, rest: seq<byte>, s: seq<byte>)
    requires s != [] && HexPair(a, b, s[0]) && IsHex(rest, s[1..])
    ensures IsHex([a, b] + rest, s)
  {
    var t := [a, b] + rest;
    forall k | 0 <= k < |s| ensures HexPair(t[2 * k], t[2 * k + 1], s[k]) {
      if k > 0 {
        assert t[2 * k] == rest[2 * (k - 1)] && t[2 * k + 1] == rest[2 * (k - 1) + 1] && s[k] == s[1..][k - 1];
      }
    }
  }

  /** There is one such text. */
  lemma IsHexUnique(x: seq<byte>, s: seq<byte>)
    requires IsHex(x, s)
    ensures x == Hex(s)
  {
    HexMeans(s);
    var y := Hex(s);
    forall k | 0 <= k < |s| ensures x[2 * k] == y[2 * k] && x[2 * k + 1] == y[2 * k + 1] {
      SamePair(x[2 * k], x[2 * k + 1], y[2 * k], y[2 * k + 1], s[k]);
    }
    forall j | 0 <= j < |x| ensures x[j] == y[j] {
      assert j == 2 * (j / 2) || j == 2 * (j / 2) + 1;
    }
  }

  lemma SamePair(a: byte, b: byte, c: byte, d: byte, v: int)
    requires HexPair(a, b, v) && HexPair(c, d, v)
    ensures a == c && b == d
  {
  }

  // ----- what an entry shows

  /** The number a segment of `most` digits at most stands for. */
  ghost predicate Reads(s: seq<byte>, base: nat, most: nat, v: nat)
  {
    1 <= |s| <= most && IsNumeral(s, base) && Value(s, base) == v
  }

  /** Issued at most a minute ahead of the clock, and not longer ago than `valid`. */
  ghost predicate Fresh(issued: int, now: int, valid: int)
  {
    issued - 60 <= now <= issued + valid
  }

  /** The text the i-th keyed hash of the daemon's secret is taken of, and its first bytes. */
  ghost predicate Signed(env: Env, i: nat, message: seq<byte>, mac: seq<byte>)
  {
    env.mac(i, env.secret, message) == Some(mac)
  }

  /** "<time>:<address>:<host>:pow_seed", the challenge's message. */
  function ChallengeText(env: Env, d: nat): seq<byte>
  {
    Numeral(d, 10) + Ascii(":") + CStr(env.remote) + Ascii(":") + CStr(env.host) + Ascii(":pow_seed")
  }

  /** The hexadecimal text of the first twenty bytes of the i-th keyed hash of a message. */
  ghost predicate IsSeed(env: Env, i: nat, message: seq<byte>, seed: seq<byte>)
  {
    exists mac: seq<byte> :: Signed(env, i, message, mac) && |mac| >= 20 && IsHex(seed, mac[..20])
  }

  /** SHA-256 of "<seed>:<n>" starts with enough zero bits. */
  ghost predicate Answers(env: Env, seed: seq<byte>, n: nat)
  {
    var text := seed + Ascii(":") + Numeral(n, 10);
    |text| < 0x2000_0000_0000_0000
    && LeadingZeroBits(Hash(env.f, text)) >= if 8 <= env.difficulty <= 32 then env.difficulty else 18
  }

  /** The nonce n answers the challenge issued at d under the i-th hash; the seed starts with id. */
  ghost predicate Answered(env: Env, i: nat, d: nat, n: nat, id: seq<byte>)
  {
    exists seed: seq<byte> :: IsSeed(env, i, ChallengeText(env, d), seed) && Answers(env, seed, n)
                              && |seed| >= 16 && id == seed[..16]
  }

  /** A fresh challenge, answered under the first hash that has it. */
  ghost predicate Solves(env: Env, d: nat, n: nat, id: seq<byte>)
  {
    && Fresh(d, env.now, env.powValid) && |ChallengeText(env, d)| < 384 && n < 0x8000_0000_0000_0000
    && (Answered(env, 0, d, n, id) || (Answered(env, 1, d, n, id) && forall other :: !Answered(env, 0, d, n, other)))
  }

  /** "<time>.pow2.<nonce>.<...>": a fresh time, and a nonce that answers its challenge. */
  ghost predicate Worked(env: Env, time: seq<byte>, mark: seq<byte>, nonce: seq<byte>, id: seq<byte>)
  {
    && mark == Ascii("pow2")
    && exists d: nat, n: nat :: Reads(time, 10, 10, d) && Reads(nonce, 36, 13, n) && Solves(env, d, n, id)
  }

  /** "<time>.<signature>.<kind>": a fresh time, and a signature of time, address, host and kind. */
  ghost predicate Minted(env: Env, time: seq<byte>, sig: seq<byte>, kind: seq<byte>, pass: Pass)
  {
    && kind == Ascii(Word(pass.kind)) && |sig| == 16 && sig == pass.id
    && (exists d: nat :: Reads(time, 10, 10, d) && Fresh(d, env.now, env.captchaValid))
    && (SignedText(env, 0, time, sig, kind) || SignedText(env, 1, time, sig, kind))
  }

  /** sig is the hexadecimal text of the first eight bytes of the i-th keyed hash of
      "<time>:<address>:<host>:<kind>". */
  ghost predicate SignedText(env: Env, i: nat, day: seq<byte>, sig: seq<byte>, kind: seq<byte>)
  {
    exists mac: seq<byte> ::
      && Signed(env, i, day + Ascii(":") + env.remote + Ascii(":") + env.host + Ascii(":") + kind, mac)
      && |mac| >= 8 && IsHex(sig, mac[..8])
  }

  /** What an entry of 4 to 80 bytes shows: three segments are a signature, more are a proof of
      work. */
  ghost predicate Earns(env: Env, entry: seq<byte>, pass: Pass)
  {
    var segs := Split(entry, '.' as int);
    && 4 <= |entry| <= 80 && |segs| >= 3
    && if |segs| == 3 then Minted(env, segs[0], segs[1], segs[2], pass)
       else pass.kind == PowPass && Worked(env, segs[0], segs[1], segs[2], pass.id)
  }

  ghost predicate EarnsNothing(env: Env, entry: seq<byte>) { forall pass :: !Earns(env, entry, pass) }

  /** The k-th entry is the first that earns a pass, this one. */
  ghost predicate FirstEarned(env: Env, entries: seq<seq<byte>>, k: nat, pass: Pass)
  {
    k < |entries| && Earns(env, entries[k], pass) && forall j :: 0 <= j < k ==> EarnsNothing(env, entries[j])
  }

  // ----- the verdict is just that

  lemma SeedText(env: Env, i: nat, d: nat, seed: seq<byte>)
    ensures IsSeed(env, i, SeedMessage(env, d), seed) <==> Seed(env, i, d) == Some(seed)
  {
    var message := SeedMessage(env, d);
    if IsSeed(env, i, message, seed) {
      var mac: seq<byte> :| Signed(env, i, message, mac) && |mac| >= 20 && IsHex(seed, mac[..20]);
      IsHexUnique(seed, mac[..20]);
    }
    if Seed(env, i, d) == Some(seed) {
      var mac := env.mac(i, env.secret, message).value;
      HexMeans(mac[..20]);
      assert Signed(env, i, message, mac);
    }
  }

  lemma ChallengeTextIs(env: Env, d: nat)
    ensures ChallengeText(env, d) == SeedMessage(env, d)
  {
    Texts();
  }

  lemma AnsweredIsAccepted(env: Env, i: nat, d: nat, n: nat, id: seq<byte>)
    requires n <= INT64_MAX
    ensures Answered(env, i, d, n, id) <==> SeedAccepts(env, i, d, n) && id == Seed(env, i, d).value[..16]
  {
    Texts();
    NonceLength(n);
    ChallengeTextIs(env, d);
    forall seed { SeedText(env, i, d, seed); }
    if SeedAccepts(env, i, d, n) { assert Answers(env, Seed(env, i, d).value, n); }
  }

  lemma SolvesIsPass(env: Env, day: seq<byte>, target: seq<byte>, d: nat, n: nat, id: seq<byte>)
    requires AtollSpec(day) == d && Base36Spec(target) == n
    ensures PowPassId(env, day, target) == Some(id) <==> Solves(env, d, n, id)
  {
    ChallengeTextIs(env, d);
    FirstAnswered(env, d, n, id);
  }

  lemma FirstAnswered(env: Env, d: nat, n: nat, id: seq<byte>)
    requires n <= INT64_MAX
    ensures AnsweredSeed(env, d, n) == Some(id) <==>
      Answered(env, 0, d, n, id) || (Answered(env, 1, d, n, id) && forall other :: !Answered(env, 0, d, n, other))
  {
    AnsweredIsAccepted(env, 0, d, n, id);
    AnsweredIsAccepted(env, 1, d, n, id);
    NobodyAnswered(env, 0, d, n);
  }

  lemma NobodyAnswered(env: Env, i: nat, d: nat, n: nat)
    requires n <= INT64_MAX
    ensures (forall id :: !Answered(env, i, d, n, id)) <==> !SeedAccepts(env, i, d, n)
  {
    if SeedAccepts(env, i, d, n) {
      AnsweredIsAccepted(env, i, d, n, Seed(env, i, d).value[..16]);
    } else {
      forall id ensures !Answered(env, i, d, n, id) { AnsweredIsAccepted(env, i, d, n, id); }
    }
  }

  lemma ReadsNumber(s: seq<byte>, d: nat)
    ensures 1 <= |s| <= 10 ==> (Reads(s, 10, 10, d) <==> AtollSpec(s) == d)
    ensures Reads(s, 36, 13, d) && d <= INT64_MAX <==> Base36Spec(s) == d
  {
  }

  lemma WorkIsPass(env: Env, time: seq<byte>, nonce: seq<byte>, id: seq<byte>)
    requires 1 <= |time| <= 10
    ensures PowPassId(env, time, nonce) == Some(id) <==> Worked(env, time, Ascii("pow2"), nonce, id)
  {
    if PowPassId(env, time, nonce) == Some(id) {
      var d: nat, n: nat := AtollSpec(time), Base36Spec(nonce);
      ReadsNumber(time, d);
      ReadsNumber(nonce, n);
      SolvesIsPass(env, time, nonce, d, n, id);
      assert Reads(time, 10, 10, d) && Reads(nonce, 36, 13, n) && Solves(env, d, n, id);
    }
    forall d: nat, n: nat | Reads(time, 10, 10, d) && Reads(nonce, 36, 13, n) && Solves(env, d, n, id)
      ensures PowPassId(env, time, nonce) == Some(id)
    {
      ReadsNumber(time, d);
      ReadsNumber(nonce, n);
      SolvesIsPass(env, time, nonce, d, n, id);
    }
  }

  lemma SignedTextIs(env: Env, i: nat, day: seq<byte>, sig: seq<byte>, kind: seq<byte>)
    ensures SignedText(env, i, day, sig, kind) <==>
      Signs(env, i, day + [COLON] + env.remote + [COLON] + env.host + [COLON] + kind, sig)
  {
    Texts();
    var message := day + [COLON] + env.remote + [COLON] + env.host + [COLON] + kind;
    if SignedText(env, i, day, sig, kind) {
      var mac: seq<byte> :| Signed(env, i, message, mac) && |mac| >= 8 && IsHex(sig, mac[..8]);
      IsHexUnique(sig, mac[..8]);
    }
    if Signs(env, i, message, sig) {
      var mac := env.mac(i, env.secret, message).value;
      HexMeans(mac[..8]);
      assert Signed(env, i, message, mac);
    }
  }

  lemma SignatureIsPass(env: Env, time: seq<byte>, sig: seq<byte>, kind: seq<byte>, pass: Pass)
    requires 1 <= |time| <= 10 && |sig| == 16
    ensures SignedPass(env, time, sig, kind) == Some(pass) <==> Minted(env, time, sig, kind, pass)
  {
    KindWord(kind, pass.kind);
    SignedTextIs(env, 0, time, sig, kind);
    SignedTextIs(env, 1, time, sig, kind);
    forall d: nat { ReadsNumber(time, d); }
    if AtollSpec(time) >= 0 { ReadsNumber(time, AtollSpec(time)); }
  }

  lemma WordLength(k: Kind)
    ensures 1 <= |Word(k)| <= 32
  {
  }

  /** An entry without the lengths the decoder asks for earns nothing. */
  lemma NothingToRead(env: Env, a: seq<byte>, b: seq<byte>, c: seq<byte>, pass: Pass)
    ensures !(1 <= |a| <= 10) ==> !Minted(env, a, b, c, pass) && !Worked(env, a, b, c, pass.id)
    ensures |b| != 16 || !(1 <= |c| <= 32) ==> !Minted(env, a, b, c, pass)
    ensures !(1 <= |c| <= 13) ==> !Worked(env, a, b, c, pass.id)
  {
    WordLength(pass.kind);
  }

  lemma SegmentsMean(env: Env, n: nat, a: seq<byte>, b: seq<byte>, c: seq<byte>, more: bool, pass: Pass)
    ensures EntryPass(env, BySegments(n, a, b, c, more)) == Some(pass) <==>
      4 <= n <= 80 && if more then pass.kind == PowPass && Worked(env, a, b, c, pass.id) else Minted(env, a, b, c, pass)
  {
    Texts();
    NothingToRead(env, a, b, c, pass);
    if 1 <= |a| <= 10 {
      if more { WorkIsPass(env, a, c, pass.id); } else if |b| == 16 { SignatureIsPass(env, a, b, c, pass); }
    }
  }

  /** What the decoder accepts: three segments as a signed entry, more as a proof of work. */
  lemma EntryMeans(entry: seq<byte>)
    ensures var segs, e := Split(entry, '.' as int), EntryOf(entry);
      var timed := 4 <= |entry| <= 80 && |segs| >= 3 && 1 <= |segs[0]| <= 10;
      && (e.Captcha? <==> timed && |segs| == 3 && |segs[1]| == 16 && 1 <= |segs[2]| <= 32)
      && (e.Captcha? ==> e == Captcha(segs[0], segs[1], segs[2]))
      && (e.Pow2? <==> timed && |segs| > 3 && segs[1] == Ascii("pow2") && 1 <= |segs[2]| <= 13)
      && (e.Pow2? ==> e == Pow2(segs[0], segs[2]))
  {
    Texts();
  }

  /** The verdict on an entry is exactly what the entry earns. */
  lemma VerdictMeans(env: Env, entry: seq<byte>, pass: Pass)
    ensures Verdict(env)(entry) == Some(pass) <==> Earns(env, entry, pass)
  {
    var segs := Split(entry, DOT);
    VerdictOf(env, entry, EntryOf(entry));
    if |segs| >= 3 { SegmentsMean(env, |entry|, segs[0], segs[1], segs[2], |segs| > 3, pass); }
  }

  lemma NoVerdict(env: Env, entry: seq<byte>)
    ensures Verdict(env)(entry).None? <==> EarnsNothing(env, entry)
  {
    forall pass { VerdictMeans(env, entry, pass); }
    if Verdict(env)(entry).Some? { VerdictMeans(env, entry, Verdict(env)(entry).value); }
  }

  /** A request is let through exactly when one of its first sixteen entries earns a pass, and
      as the first of them that does. */
  lemma RequestMeans(env: Env, header: seq<byte>)
    ensures var entries := Take(RequestEntries(header), 16); var found := FirstPass(Verdict(env), entries);
      && (found == None <==> forall k :: 0 <= k < |entries| ==> EarnsNothing(env, entries[k]))
      && (found.Some? ==> exists k :: FirstEarned(env, entries, k, found.value))
  {
    EntriesMean(env, Take(RequestEntries(header), 16), FirstPass(Verdict(env), Take(RequestEntries(header), 16)));
  }

  lemma EntriesMean(env: Env, entries: seq<seq<byte>>, found: Option<Pass>)
    requires found == FirstPass(Verdict(env), entries)
    ensures found == None <==> forall k :: 0 <= k < |entries| ==> EarnsNothing(env, entries[k])
    ensures found.Some? ==> exists k :: FirstEarned(env, entries, k, found.value)
  {
    var v := Verdict(env);
    forall k | 0 <= k < |entries|
      ensures v(entries[k]).None? <==> EarnsNothing(env, entries[k])
      ensures v(entries[k]).Some? ==> Earns(env, entries[k], v(entries[k]).value)
    {
      NoVerdict(env, entries[k]);
      if v(entries[k]).Some? { VerdictMeans(env, entries[k], v(entries[k]).value); }
    }
    SearchMeans(env, v, entries);
  }

  lemma SearchMeans(env: Env, v: seq<byte> -> Option<Pass>, entries: seq<seq<byte>>)
    requires forall k :: 0 <= k < |entries| ==> (v(entries[k]).None? <==> EarnsNothing(env, entries[k]))
    requires forall k :: 0 <= k < |entries| && v(entries[k]).Some? ==> Earns(env, entries[k], v(entries[k]).value)
    ensures FirstPass(v, entries) == None <==> forall k :: 0 <= k < |entries| ==> EarnsNothing(env, entries[k])
    ensures FirstPass(v, entries).Some? ==> exists k :: FirstEarned(env, entries, k, FirstPass(v, entries).value)
  {
    var found := FirstPass(v, entries);
    FirstPassMeaning(v, entries);
    if found.Some? {
      var k :| 0 <= k < |entries| && v(entries[k]) == found && forall j :: 0 <= j < k ==> v(entries[j]).None?;
      assert FirstEarned(env, entries, k, found.value);
    }
  }
}
