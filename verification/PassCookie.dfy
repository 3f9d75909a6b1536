/** Searching a list of entries for the first that verifies, whatever verifying means. */
module EntrySearch {
  import opened Wrappers
  import opened Bytes

  function FirstPass<P>(v: seq<byte> -> Option<P>, entries: seq<seq<byte>>): Option<P>
  {
    if entries == [] then None
    else if v(entries[0]).Some? then v(entries[0])
    else FirstPass(v, entries[1..])
  }

  lemma {:induction false} FirstPassConcat<P>(v: seq<byte> -> Option<P>, a: seq<seq<byte>>, b: seq<seq<byte>>)
    ensures FirstPass(v, a + b) == if FirstPass(v, a).Some? then FirstPass(v, a) else FirstPass(v, b)
  {
    if a == [] {
      assert a + b == b;
    } else {
      assert (a + b)[1..] == a[1..] + b;
      FirstPassConcat(v, a[1..], b);
    }
  }

  /** None means that no entry verifies; otherwise it is the first that does. */
  lemma {:induction false} FirstPassMeaning<P>(v: seq<byte> -> Option<P>, entries: seq<seq<byte>>)
    ensures FirstPass(v, entries).None? <==> forall k :: 0 <= k < |entries| ==> v(entries[k]).None?
    ensures FirstPass(v, entries).Some? ==>
      exists k :: 0 <= k < |entries| && v(entries[k]) == FirstPass(v, entries)
                  && forall j :: 0 <= j < k ==> v(entries[j]).None?
  {
    if entries != [] {
      var tail := entries[1..];
      FirstPassMeaning(v, tail);
      assert forall j :: 0 < j < |entries| ==> entries[j] == tail[j - 1];
      if v(entries[0]).None? && FirstPass(v, tail).Some? {
        var k :| 0 <= k < |tail| && v(tail[k]) == FirstPass(v, tail)
                 && forall j :: 0 <= j < k ==> v(tail[j]).None?;
        assert v(entries[k + 1]) == FirstPass(v, entries);
      }
    }
  }

  /** One more entry examined, none having verified before it. */
  lemma SearchStep<P>(v: seq<byte> -> Option<P>, all: seq<seq<byte>>, checked: seq<seq<byte>>, entry: seq<byte>,
                      rest: seq<seq<byte>>)
    requires FirstPass(v, checked).None? && all == checked + ([entry] + rest)
    ensures v(entry).Some? ==> FirstPass(v, all) == v(entry)
    ensures v(entry).None? ==> FirstPass(v, checked + [entry]).None?
    ensures all == checked + [entry] + rest
  {
    FirstPassConcat(v, checked, [entry] + rest);
    FirstPassConcat(v, checked, [entry]);
  }

  /** One more value examined: `first` are its entries within the budget, `seen` those
      looked at, `later` what the budget still covers behind it. */
  lemma ValueStep<P>(v: seq<byte> -> Option<P>, all: seq<seq<byte>>, before: seq<seq<byte>>,
                     first: seq<seq<byte>>, later: seq<seq<byte>>)
    requires all == before + (first + later) && FirstPass(v, before).None?
    ensures FirstPass(v, first).Some? ==> FirstPass(v, all) == FirstPass(v, first)
    ensures FirstPass(v, first).None? ==> FirstPass(v, before + first).None?
    ensures all == before + first + later
  {
    FirstPassConcat(v, before, first + later);
    FirstPassConcat(v, first, later);
    FirstPassConcat(v, before, first);
  }
}

/** The verification of `_bv` pass cookies in ngx_http_unmask_module.c: one entry, one
    "~"-joined value, and every `_bv` value of a request under one shared budget. */
module PassCookie {
  import opened Wrappers
  import opened Bytes
  import opened Numerals
  import opened LeadingZeros
  import opened Sha256
  import opened PowHasher
  import opened BvParser
  import opened EntrySearch

  const TILDE: byte := 126
  const BV: seq<byte> := [95, 98, 118]                                          // "_bv"
  const POW_SEED: seq<byte> := [58, 112, 111, 119, 95, 115, 101, 101, 100]       // ":pow_seed"
  const FUTURE_SKEW := 60
  const BUDGET := 16

  datatype Kind = CaptchaPass | RebindPass | PassthroughPass | PowPass
  datatype Pass = Pass(kind: Kind, id: seq<byte>)

  /** What a verification reads besides the cookie.  `mac(i, key, message)` is the i-th
      keyed hash (0 is HMAC-SHA256, 1 is HMAC-SHA1), None when the library call fails. */
  datatype Env = Env(f: Compression, mac: (nat, seq<byte>, seq<byte>) -> Option<seq<byte>>,
                     secret: seq<byte>, remote: seq<byte>, host: seq<byte>, now: int,
                     powValid: int, captchaValid: int, difficulty: int)

  // ----- proof of work

  function HexDigit(d: int): byte
    requires 0 <= d < 16
  {
    Digit(d)
  }

  function Hex(s: seq<byte>): (r: seq<byte>)
    ensures |r| == 2 * |s|
  {
    if s == [] then [] else [HexDigit(s[0] / 16), HexDigit(s[0] % 16)] + Hex(s[1..])
  }

  /** Out-of-range difficulties fall back to the default of 18. */
  function Difficulty(d: int): int { if 8 <= d <= 32 then d else 18 }

  predicate InWindow(issued: int, now: int, valid: int)
  {
    issued <= now + FUTURE_SKEW && now - issued <= valid
  }

  /** "<issued>:<remote>:<host>:pow_seed"; snprintf's %.*s stops at a NUL. */
  function SeedMessage(env: Env, issued: nat): seq<byte>
  {
    Numeral(issued, 10) + [COLON] + CStr(env.remote) + [COLON] + CStr(env.host) + POW_SEED
  }

  /** The seed under the i-th hash: the first 160 bits of the MAC, in hex. */
  function Seed(env: Env, i: nat, issued: nat): (r: Option<seq<byte>>)
    ensures r.Some? ==> |r.value| == 40
  {
    match env.mac(i, env.secret, SeedMessage(env, issued))
    case None => None
    case Some(m) => if |m| < 20 then None else Some(Hex(m[..20]))
  }

  predicate SeedAccepts(env: Env, i: nat, issued: nat, nonce: nat)
  {
    var seed := Seed(env, i, issued);
    seed.Some? && |Numeral(nonce, 10)| <= 19
    && PowBits(env.f, seed.value + [COLON] + Numeral(nonce, 10)) >= Difficulty(env.difficulty)
  }

  /** The pass a (day, target) pair earns: the identity of the first seed it answers. */
  function PowPassId(env: Env, day: seq<byte>, target: seq<byte>): Option<seq<byte>>
  {
    var issued, nonce := AtollSpec(day), Base36Spec(target);
    if issued < 0 || nonce < 0 || !InWindow(issued, env.now, env.powValid)
       || |SeedMessage(env, issued)| >= 384 then None
    else AnsweredSeed(env, issued, nonce)
  }

  function AnsweredSeed(env: Env, issued: nat, nonce: nat): Option<seq<byte>>
  {
    if SeedAccepts(env, 0, issued, nonce) then Some(Seed(env, 0, issued).value[..16])
    else if SeedAccepts(env, 1, issued, nonce) then Some(Seed(env, 1, issued).value[..16])
    else None
  }

  lemma NonceLength(n: nat)
    requires n <= INT64_MAX
    ensures |Numeral(n, 10)| <= 19
  {
    Pow10Values();
    NumeralLength(n, 10, 19);
  }

  /** ngx_unmask_verify_pow_sha256_cookie. */
  method VerifyPow(env: Env, day: seq<byte>, nonceText: seq<byte>) returns (id: Option<seq<byte>>)
    ensures id == PowPassId(env, day, nonceText)
  {
    id := None;
    if |nonceText| == 0 || |nonceText| > 13 { return; }
    var difficulty := env.difficulty;
    if difficulty < 8 || difficulty > 32 { difficulty := 18; }
    var issued := Atoll(day);
    if issued < 0 { return; }
    if issued > env.now + FUTURE_SKEW { return; }
    if env.now - issued > env.powValid { return; }
    var nonce := Base36(nonceText);
    if nonce < 0 { return; }
    var seedMsg := SeedMessage(env, issued);
    if |seedMsg| >= 384 { return; }
    NonceLength(nonce);
    id := TrySeeds(env, issued, nonce, seedMsg, difficulty);
  }

  /** The loop over the two hashes. */
  method TrySeeds(env: Env, issued: nat, nonce: nat, seedMsg: seq<byte>, difficulty: int)
    returns (id: Option<seq<byte>>)
    requires seedMsg == SeedMessage(env, issued) && difficulty == Difficulty(env.difficulty)
    requires |Numeral(nonce, 10)| <= 19
    ensures id == AnsweredSeed(env, issued, nonce)
  {
    id := None;
    for hi := 0 to 2
      invariant id.None?
      invariant (hi > 0 ==> !SeedAccepts(env, 0, issued, nonce)) && (hi > 1 ==> !SeedAccepts(env, 1, issued, nonce))
    {
      id := TrySeed(env, hi, issued, nonce, seedMsg, difficulty);
      if id.Some? { return; }
    }
  }

  /** One turn of the loop: the seed under one hash, and the nonce against it. */
  method TrySeed(env: Env, hi: nat, issued: nat, nonce: nat, seedMsg: seq<byte>, difficulty: int)
    returns (id: Option<seq<byte>>)
    requires seedMsg == SeedMessage(env, issued) && difficulty == Difficulty(env.difficulty)
    requires |Numeral(nonce, 10)| <= 19
    ensures id == if SeedAccepts(env, hi, issued, nonce) then Some(Seed(env, hi, issued).value[..16]) else None
  {
    id := None;
    var mac := env.mac(hi, env.secret, seedMsg);
    if mac.Some? && |mac.value| >= 20 {
      var seedHex := Hex(mac.value[..20]);
      var hash := Hash(env.f, seedHex + [COLON] + Numeral(nonce, 10));
      var bits := CountLeadingZeroBits(hash);
      if bits >= difficulty { id := Some(seedHex[..16]); }
    }
  }

  // ----- one entry

  /** The kinds the daemon issues; no other verifies. */
  function KindOf(tail: seq<byte>): Option<Kind>
  {
    if tail == [114, 101, 98, 105, 110, 100] then Some(RebindPass)
    else if tail == [112, 97, 115, 115, 116, 104, 114, 111, 117, 103, 104] then Some(PassthroughPass)
    else if tail == [99, 97, 112, 116, 99, 104, 97] then Some(CaptchaPass)
    else if tail == [112, 111, 119] then Some(PowPass)
    else None
  }

  predicate Signs(env: Env, i: nat, message: seq<byte>, sig: seq<byte>)
  {
    var m := env.mac(i, env.secret, message);
    m.Some? && |m.value| >= 8 && Hex(m.value[..8]) == sig
  }

  /** What one entry verifies as. */
  function EntryPass(env: Env, entry: Entry): Option<Pass>
  {
    match entry
    case NoEntry => None
    case Pow2(day, target) => PowEntryPass(env, day, target)
    case Captcha(day, sig, kind) => SignedPass(env, day, sig, kind)
  }

  function PowEntryPass(env: Env, day: seq<byte>, target: seq<byte>): Option<Pass>
  {
    match PowPassId(env, day, target)
    case None => None
    case Some(id) => Some(Pass(PowPass, id))
  }

  function SignedPass(env: Env, day: seq<byte>, sig: seq<byte>, kind: seq<byte>): Option<Pass>
  {
    var issued := AtollSpec(day);
    var message := day + [COLON] + env.remote + [COLON] + env.host + [COLON] + kind;
    if issued < 0 || !InWindow(issued, env.now, env.captchaValid) then None
    else if !Signs(env, 0, message, sig) && !Signs(env, 1, message, sig) then None
    else if KindOf(kind).None? then None
    else Some(Pass(KindOf(kind).value, sig))
  }

  /** The verdict by what the entry decodes as. */
  lemma VerdictOf(env: Env, entry: seq<byte>, e: Entry)
    requires EntryOf(entry) == e
    ensures Verdict(env)(entry) == EntryPass(env, e)
  {
  }

  /** ngx_unmask_bv_verify_one. */
  method VerifyOne(env: Env, entry: seq<byte>) returns (pass: Option<Pass>)
    ensures pass == Verdict(env)(entry)
  {
    var fields := ParseEntry(entry);
    VerdictOf(env, entry, fields.View(entry));
    pass := VerifyFields(env, entry, fields);
  }

  /** The check for the format the entry was parsed as. */
  method VerifyFields(env: Env, entry: seq<byte>, fields: Fields) returns (pass: Option<Pass>)
    requires fields.Within(|entry|)
    ensures pass == EntryPass(env, fields.View(entry))
  {
    var day := entry[fields.dayOff..fields.dayOff + fields.dayLen];
    var sig := entry[fields.sigOff..fields.sigOff + fields.sigLen];
    var tail := entry[fields.tailOff..fields.tailOff + fields.tailLen];
    pass := VerifyParts(env, fields.format, day, sig, tail, fields.View(entry));
  }

  method VerifyParts(env: Env, format: Format, day: seq<byte>, sig: seq<byte>, tail: seq<byte>, ghost e: Entry)
    returns (pass: Option<Pass>)
    requires match format
      case FmtNone => e == NoEntry
      case FmtPow2 => e == Pow2(day, tail)
      case FmtCaptcha => e == Captcha(day, sig, tail)
    ensures pass == EntryPass(env, e)
  {
    if format == FmtNone { return None; }
    if format == FmtPow2 {
      pass := PassPow(env, day, tail);
      return;
    }
    pass := VerifySigned(env, day, sig, tail);
  }

  method PassPow(env: Env, day: seq<byte>, tail: seq<byte>) returns (pass: Option<Pass>)
    ensures pass == PowEntryPass(env, day, tail)
  {
    var id := VerifyPow(env, day, tail);
    pass := if id.Some? then Some(Pass(PowPass, id.value)) else None;
  }

  method VerifySigned(env: Env, day: seq<byte>, sig: seq<byte>, tail: seq<byte>) returns (pass: Option<Pass>)
    ensures pass == SignedPass(env, day, sig, tail)
  {
    pass := None;
    var issued := Atoll(day);
    if issued < 0 { return; }
    if issued > env.now + FUTURE_SKEW { return; }
    if env.now - issued > env.captchaValid { return; }
    var message := day + [COLON] + env.remote + [COLON] + env.host + [COLON] + tail;
    var ok, hi := false, 0;
    while hi < 2 && !ok
      invariant 0 <= hi <= 2
      invariant ok <==> exists k: nat :: k < hi && Signs(env, k, message, sig)
    {
      var mac := env.mac(hi, env.secret, message);
      if mac.Some? && |mac.value| >= 8 && Hex(mac.value[..8]) == sig {
        assert Signs(env, hi, message, sig);
        ok := true;
      }
      hi := hi + 1;
    }
    if ok && KindOf(tail).Some? {
      pass := Some(Pass(KindOf(tail).value, sig));
    }
  }

  // ----- a value, and all values under one budget

  /** The entries of one value: between tildes; a value that ends in one has no empty
      last entry, and an empty value has none. */
  function Entries(value: seq<byte>): seq<seq<byte>>
    decreases |value|
  {
    if value == [] then []
    else
      var i := IndexOf(value, TILDE);
      if i == |value| then [value] else [value[..i]] + Entries(value[i + 1..])
  }

  /** They are the pieces between tildes, but for an empty last one. */
  lemma {:induction false} EntriesBySplit(value: seq<byte>)
    ensures var pieces := Split(value, '~' as int); var n := |pieces| - 1;
      Entries(value) == if pieces[n] == [] then pieces[..n] else pieces
    decreases |value|
  {
    var i := IndexOf(value, TILDE);
    if value != [] && i < |value| {
      var rest := Split(value[i + 1..], TILDE);
      EntriesBySplit(value[i + 1..]);
      assert ([value[..i]] + rest)[..|rest|] == [value[..i]] + rest[..|rest| - 1];
    }
  }

  /** The verdict on each entry of a request. */
  function Verdict(env: Env): seq<byte> -> Option<Pass>
  {
    entry => EntryPass(env, EntryOf(entry))
  }

  /** ngx_unmask_bv_verify_value: the first verifying entry within what is left of the
      request's budget.  `checked` lists the entries it verified, one budget unit each. */
  method VerifyValue(env: Env, value: seq<byte>, budget0: nat)
    returns (pass: Option<Pass>, budget: nat, ghost checked: seq<seq<byte>>)
    ensures pass == FirstPass(Verdict(env), Take(Entries(value), budget0))
    ensures checked <= Take(Entries(value), budget0) && budget == budget0 - |checked|
    ensures pass.None? ==> checked == Take(Entries(value), budget0)
  {
    pass, budget, checked := None, budget0, [];
    ghost var all := Take(Entries(value), budget0);
    var p := 0;
    assert value[0..] == value;
    while p < |value| && budget > 0
      invariant 0 <= p <= |value| && budget == budget0 - |checked|
      invariant checked + Take(Entries(value[p..]), budget) == all
      invariant pass.None? && FirstPass(Verdict(env), checked).None?
      decreases |value| - p
    {
      var entry, next := NextEntry(value, p, budget);
      SearchStep(Verdict(env), all, checked, entry, Take(Entries(value[next..]), budget - 1));
      budget, checked := budget - 1, checked + [entry];
      pass := VerifyOne(env, entry);
      if pass.Some? { return; }
      p := next;
    }
    NothingLeft(value, p, budget);
    assert checked + [] == checked;
  }

  /** The entry up to the next tilde or the end, and where the one after it starts. */
  method NextEntry(value: seq<byte>, p: nat, ghost budget: nat) returns (entry: seq<byte>, next: nat)
    requires p < |value| && budget > 0
    ensures p < next <= |value|
    ensures Take(Entries(value[p..]), budget) == [entry] + Take(Entries(value[next..]), budget - 1)
  {
    var i := IndexOf(value[p..], TILDE);
    entry := value[p..p + i];
    EntriesStep(value, p, i, budget);
    next := if p + i == |value| then |value| else p + i + 1;
    assert value[|value|..] == [];
  }

  lemma NothingLeft(value: seq<byte>, p: nat, budget: nat)
    requires p == |value| || (p < |value| && budget == 0)
    ensures Take(Entries(value[p..]), budget) == []
  {
  }

  lemma EntriesStep(value: seq<byte>, p: nat, i: nat, budget: nat)
    requires p < |value| && budget > 0 && i == IndexOf(value[p..], TILDE)
    ensures
      var rest := if p + i == |value| then [] else value[p + i + 1..];
      Take(Entries(value[p..]), budget) == [value[p..p + i]] + Take(Entries(rest), budget - 1)
  {
    var v := value[p..];
    assert v[..i] == value[p..p + i];
    if p + i < |value| { assert v[i + 1..] == value[p + i + 1..]; }
    EntriesCons(v);
    TakeCons(v[..i], Entries(if i == |v| then [] else v[i + 1..]), budget);
  }

  lemma EntriesCons(v: seq<byte>)
    requires v != []
    ensures var i := IndexOf(v, TILDE); Entries(v) == [v[..i]] + Entries(if i == |v| then [] else v[i + 1..])
  {
    assert v[..|v|] == v;
  }

  lemma TakeCons(x: seq<byte>, s: seq<seq<byte>>, n: nat)
    requires n > 0
    ensures Take([x] + s, n) == [x] + Take(s, n - 1)
  {
  }

  function AllEntries(values: seq<seq<byte>>): seq<seq<byte>>
  {
    if values == [] then [] else Entries(values[0]) + AllEntries(values[1..])
  }

  /** Every entry a request carries, in order. */
  function RequestEntries(header: seq<byte>): seq<seq<byte>>
  {
    AllEntries(CookieValues(header, BV))
  }

  /** ngx_unmask_bv_kind_compute: the first verifying entry among the first sixteen of
      all `_bv` values together, and never more than those sixteen are verified. */
  method KindCompute(env: Env, header: seq<byte>) returns (pass: Option<Pass>, ghost checked: seq<seq<byte>>)
    ensures env.secret == [] ==> pass.None? && checked == []
    ensures env.secret != [] ==> pass == FirstPass(Verdict(env), Take(RequestEntries(header), BUDGET))
    ensures checked <= Take(RequestEntries(header), BUDGET)
  {
    pass, checked := None, [];
    if env.secret == [] { return; }
    var off, budget, more := 0, BUDGET, true;
    assert header[0..] == header;
    ghost var all := Take(RequestEntries(header), BUDGET);
    ghost var left := CookieValues(header, BV);
    while budget > 0 && more
      invariant 0 <= off <= |header| && 0 <= budget
      invariant more ==> left == CookieValues(header[off..], BV)
      invariant !more ==> left == []
      invariant checked + Take(AllEntries(left), budget) == all
      invariant pass.None? && FirstPass(Verdict(env), checked).None?
      decreases more, |header| - off
    {
      var found, next, valOff, valLen := CookieNext(header, BV, off);
      more, off := found, next;
      if found {
        var value := header[valOff..valOff + valLen];
        left := CookieValues(header[off..], BV);
        pass, budget, checked := VerifyNext(env, value, budget, checked, left);
        if pass.Some? { return; }
      } else {
        left := [];
      }
    }
    assert checked == all;
  }

  /** One turn of the loop: `later` are the values behind this one. */
  method VerifyNext(env: Env, value: seq<byte>, budget0: nat, ghost before: seq<seq<byte>>, ghost later: seq<seq<byte>>)
    returns (pass: Option<Pass>, budget: nat, ghost checked: seq<seq<byte>>)
    requires FirstPass(Verdict(env), before).None?
    ensures var all := before + Take(AllEntries([value] + later), budget0);
      && checked <= all
      && (pass.Some? ==> pass == FirstPass(Verdict(env), all))
      && (pass.None? ==> FirstPass(Verdict(env), checked).None?
                         && checked + Take(AllEntries(later), budget) == all)
  {
    ghost var seen;
    pass, budget, seen := VerifyValue(env, value, budget0);
    checked := before + seen;
    ValueChecked(Verdict(env), value, budget0, before, later, pass, seen);
  }

  /** What the search of one value says about the search of all. */
  lemma ValueChecked(v: seq<byte> -> Option<Pass>, value: seq<byte>, budget: nat, before: seq<seq<byte>>,
                     later: seq<seq<byte>>, pass: Option<Pass>, seen: seq<seq<byte>>)
    requires FirstPass(v, before).None? && pass == FirstPass(v, Take(Entries(value), budget))
    requires seen <= Take(Entries(value), budget) && (pass.None? ==> seen == Take(Entries(value), budget))
    ensures var all, checked := before + Take(AllEntries([value] + later), budget), before + seen;
      && checked <= all
      && (pass.Some? ==> pass == FirstPass(v, all))
      && (pass.None? ==> FirstPass(v, checked).None?
                         && checked + Take(AllEntries(later), budget - |seen|) == all)
  {
    var all := before + Take(AllEntries([value] + later), budget);
    var first := Take(Entries(value), budget);
    BudgetStep(value, later, budget);
    ValueStep(v, all, before, first, Take(AllEntries(later), budget - |first|));
  }

  /** Spending the budget value by value is spending it on the concatenation. */
  lemma BudgetStep(value: seq<byte>, rest: seq<seq<byte>>, budget: nat)
    ensures var first := Take(Entries(value), budget);
      Take(AllEntries([value] + rest), budget) == first + Take(AllEntries(rest), budget - |first|)
  {
    assert ([value] + rest)[1..] == rest;
    TakeConcat(Entries(value), AllEntries(rest), budget);
  }
}
