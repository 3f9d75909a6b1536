/** The `_bv` list a roaming browser accumulates (challenge.js), from the token of one
    solve to the verifier that finds it in the Cookie header. */
module BvList {
  import opened Wrappers
  import opened Bytes
  import opened Numerals
  import opened Sha256
  import opened PowSolve
  import opened BvParser
  import opened EntrySearch
  import opened PassCookie
  import Utf8

  // ----- one solve: the token

  /** What the page mints from one solve: four dot-separated segments, the issue time in
      decimal and the nonce and the flags in base 36. */
  function Token(issued: nat, target: nat, flags: nat): seq<byte>
  {
    Join([Numeral(issued, 10), POW2, Numeral(target, 36), Numeral(flags, 36)], DOT)
  }

  /** The token decodes as a proof of work with its issue time and nonce. */
  lemma TokenDecodes(issued: nat, target: nat, flags: nat)
    requires issued < 10_000_000_000 && target <= INT64_MAX && flags < 36
    ensures EntryOf(Token(issued, target, flags)) == Pow2(Numeral(issued, 10), Numeral(target, 36))
    ensures AtollSpec(Numeral(issued, 10)) == issued && Base36Spec(Numeral(target, 36)) == target
  {
    var segs := [Numeral(issued, 10), POW2, Numeral(target, 36), Numeral(flags, 36)];
    AtollInverts(issued);
    IssueTimeLength(issued);
    Base36Inverts(target);
    NumeralBytes(issued, 10, DOT);
    NumeralBytes(target, 36, DOT);
    NumeralBytes(flags, 36, DOT);
    SplitJoin(segs, DOT);
    JoinFour(segs[0], segs[1], segs[2], segs[3], DOT);
  }

  /** The bytes the solver hashes ahead of the nonce. */
  function Prefix(seed: seq<byte>): seq<byte> { Utf8.Utf8Of(seed + [COLON]) }

  /** What the page and the verifier share when a challenge is issued: the seed is one the
      verifier derives, the issue time has at most ten digits and is within the window, and
      the seed message fits the verifier's buffer. */
  predicate Challenge(env: Env, i: nat, seed: seq<byte>, issued: nat)
  {
    && i < 2 && Seed(env, i, issued) == Some(seed) && issued < 10_000_000_000
    && InWindow(issued, env.now, env.powValid) && |SeedMessage(env, issued)| < 384
  }

  /** Some nonce in the solver's reach meets the difficulty. */
  ghost predicate Solvable(f: Compression, seed: seq<byte>, diff: nat)
  {
    exists n: nat :: n < MaxIter(diff) && Meets(f, Prefix(seed), n, diff)
  }

  /** Solver and verifier hash the same message. */
  lemma SeedMeets(env: Env, i: nat, seed: seq<byte>, issued: nat, n: nat)
    requires Seed(env, i, issued) == Some(seed) && n <= INT64_MAX
    ensures SeedAccepts(env, i, issued, n) <==> Meets(env.f, Prefix(seed), n, Difficulty(env.difficulty))
  {
    NonceLength(n);
    SeedIsAscii(env, i, issued);
    Utf8.Utf8Ascii(seed + [COLON]);
  }

  /** A token's pass, when the seed under the i-th hash is the client's. */
  lemma ChallengePass(env: Env, i: nat, seed: seq<byte>, issued: nat, target: nat)
    requires Challenge(env, i, seed, issued) && target <= INT64_MAX
    ensures PowPassId(env, Numeral(issued, 10), Numeral(target, 36)).Some?
       <==> Meets(env.f, Prefix(seed), target, Difficulty(env.difficulty)) || SeedAccepts(env, 1 - i, issued, target)
  {
    AtollInverts(issued);
    Base36Inverts(target);
    SeedMeets(env, i, seed, issued, target);
  }

  /** The verdict on a token is that of its time and nonce. */
  lemma TokenVerdict(env: Env, issued: nat, target: nat, flags: nat)
    requires issued < 10_000_000_000 && target <= INT64_MAX && flags < 36
    ensures Verdict(env)(Token(issued, target, flags)) == PowEntryPass(env, Numeral(issued, 10), Numeral(target, 36))
  {
    TokenDecodes(issued, target, flags);
    VerdictOf(env, Token(issued, target, flags), Pow2(Numeral(issued, 10), Numeral(target, 36)));
  }

  /** What the loops return is in the verifier's range, and meets the difficulty exactly when
      some nonce in reach does. */
  lemma SolutionMeets(f: Compression, seed: seq<byte>, diff: nat, target: nat)
    requires diff <= 32 && IsSolution(f, Prefix(seed), diff, MaxIter(diff), target)
    ensures target <= INT64_MAX && (Meets(f, Prefix(seed), target, diff) <==> Solvable(f, seed, diff))
    ensures !Solvable(f, seed, diff) ==> target == 0
  {
    MaxIterFits(diff);
    if Meets(f, Prefix(seed), target, diff) { assert target < MaxIter(diff); }
  }

  /** Every token minted from a successful solve, at the verifier's difficulty or above, is
      accepted. */
  lemma MintedTokenPasses(env: Env, i: nat, seed: seq<byte>, issued: nat, target: nat, flags: nat, diff: nat)
    requires Challenge(env, i, seed, issued) && flags < 36 && Difficulty(env.difficulty) <= diff <= 32
    requires IsSolution(env.f, Prefix(seed), diff, MaxIter(diff), target) && Solvable(env.f, seed, diff)
    ensures Verdict(env)(Token(issued, target, flags)).Some?
    ensures Verdict(env)(Token(issued, target, flags)).value.kind == PowPass
  {
    SolutionMeets(env.f, seed, diff, target);
    ChallengePass(env, i, seed, issued, target);
    TokenVerdict(env, issued, target, flags);
  }

  /** The page also mints a token when the loops found nothing: whatever they returned, the
      token passes exactly when a solution was in reach, or nonce 0 happens to answer the
      seed under the other hash. */
  lemma MintedTokenIsExact(env: Env, i: nat, seed: seq<byte>, issued: nat, target: nat, flags: nat, diff: nat)
    requires Challenge(env, i, seed, issued) && flags < 36 && Difficulty(env.difficulty) == diff
    requires IsSolution(env.f, Prefix(seed), diff, MaxIter(diff), target)
    ensures Verdict(env)(Token(issued, target, flags)).Some?
       <==> Solvable(env.f, seed, diff) || SeedAccepts(env, 1 - i, issued, 0)
  {
    SolutionMeets(env.f, seed, diff, target);
    ChallengePass(env, i, seed, issued, target);
    TokenVerdict(env, issued, target, flags);
  }

  lemma {:induction false} HexIsAscii(s: seq<byte>)
    ensures forall k :: 0 <= k < |Hex(s)| ==> Hex(s)[k] < 0x80
  {
    if s != [] { HexIsAscii(s[1..]); }
  }

  lemma SeedIsAscii(env: Env, i: nat, issued: nat)
    requires Seed(env, i, issued).Some?
    ensures forall k :: 0 <= k < 40 ==> Seed(env, i, issued).value[k] < 0x80
  {
    HexIsAscii(env.mac(i, env.secret, SeedMessage(env, issued)).value[..20]);
  }

  // ----- the list

  /** bv_max_entries, clamped to the verifier's ceiling. */
  function ClampMax(m: int): (r: nat)
    ensures 1 <= r <= BUDGET
  {
    if m < 1 || m > 16 then 8 else m
  }

  /** The earlier entries worth keeping: no blanks, not the new token again. */
  function Keep(parts: seq<seq<byte>>, tok: seq<byte>): seq<seq<byte>>
  {
    if parts == [] then []
    else
      var r := Keep(parts[..|parts| - 1], tok);
      var x := parts[|parts| - 1];
      if x != [] && x != tok then r + [x] else r
  }

  function Stored(parts: seq<seq<byte>>, tok: seq<byte>, max: nat): seq<seq<byte>>
    requires max >= 1
  {
    [tok] + Take(Keep(parts, tok), max - 1)
  }

  /** The new cookie value, built up as a string. */
  method Accumulate(prior: seq<byte>, tok: seq<byte>, maxEntries: int) returns (list: seq<byte>)
    ensures list == Join(Stored(Split(prior, TILDE), tok, ClampMax(maxEntries)), TILDE)
  {
    var max := maxEntries;
    if max < 1 || max > 16 { max := 8; }
    list := tok;
    var n := 1;
    var parts := Split(prior, TILDE);
    assert parts[..|parts|] == parts;
    ghost var kept := [];
    if prior != [] {
      var k := 0;
      while k < |parts| && n < max
        invariant 0 <= k <= |parts| && n == 1 + |kept| && 1 <= n <= max
        invariant kept == Keep(parts[..k], tok)
        invariant list == Join([tok] + kept, TILDE)
      {
        KeepStep(parts, k, tok);
        if parts[k] != [] && parts[k] != tok {
          ListStep(tok, kept, parts[k]);
          list := list + [TILDE] + parts[k];
          n := n + 1;
          kept := kept + [parts[k]];
        }
        k := k + 1;
      }
      KeepPrefix(parts, k, tok);
    }
    assert kept == Take(Keep(parts, tok), max - 1);
  }

  lemma KeepStep(parts: seq<seq<byte>>, k: nat, tok: seq<byte>)
    requires k < |parts|
    ensures Keep(parts[..k + 1], tok)
         == Keep(parts[..k], tok) + (if parts[k] != [] && parts[k] != tok then [parts[k]] else [])
  {
    assert parts[..k + 1][..k] == parts[..k];
  }

  lemma ListStep(tok: seq<byte>, kept: seq<seq<byte>>, x: seq<byte>)
    ensures Join([tok] + (kept + [x]), TILDE) == Join([tok] + kept, TILDE) + [TILDE] + x
  {
    JoinSnoc([tok] + kept, x, TILDE);
    assert [tok] + kept + [x] == [tok] + (kept + [x]);
  }

  lemma {:induction false} KeepPrefix(parts: seq<seq<byte>>, k: nat, tok: seq<byte>)
    requires k <= |parts|
    ensures Keep(parts[..k], tok) <= Keep(parts, tok)
    decreases |parts|
  {
    if k == |parts| {
      assert parts[..k] == parts;
    } else {
      KeepPrefix(parts[..|parts| - 1], k, tok);
      assert parts[..|parts| - 1][..k] == parts[..k];
    }
  }

  // ----- a history of solves

  datatype Solve = Solve(tok: seq<byte>, maxEntries: int)

  /** The entries stored after a history, oldest solve first. */
  function StoredAfter(h: seq<Solve>): seq<seq<byte>>
  {
    if h == [] then []
    else Stored(StoredAfter(h[..|h| - 1]), h[|h| - 1].tok, ClampMax(h[|h| - 1].maxEntries))
  }

  /** The distinct tokens of a history, most recent first. */
  function Recent(h: seq<Solve>): seq<seq<byte>>
  {
    if h == [] then [] else [h[|h| - 1].tok] + Keep(Recent(h[..|h| - 1]), h[|h| - 1].tok)
  }

  ghost predicate Distinct(s: seq<seq<byte>>)
  {
    forall i, j :: 0 <= i < j < |s| ==> s[i] != s[j]
  }

  lemma {:induction false} KeepDistinct(parts: seq<seq<byte>>, tok: seq<byte>)
    requires Distinct(parts)
    ensures Distinct(Keep(parts, tok))
    ensures |Keep(parts, tok)| >= |parts| - 1 || [] in parts
    ensures tok !in parts && [] !in parts ==> Keep(parts, tok) == parts
  {
    if parts != [] {
      var k := |parts| - 1;
      KeepDistinct(parts[..k], tok);
      KeepMembers(parts[..k], tok, parts[k]);
    }
  }

  lemma {:induction false} RecentFacts(h: seq<Solve>)
    requires forall i :: 0 <= i < |h| ==> h[i].tok != []
    ensures Distinct(Recent(h)) && [] !in Recent(h)
    ensures forall x :: x in Recent(h) <==> Solved(h, x)
  {
    if h != [] {
      var k := |h| - 1;
      var before, tok := Recent(h[..k]), h[k].tok;
      RecentFacts(h[..k]);
      KeepDistinct(before, tok);
      KeepMembers(before, tok, tok);
      KeepMembers(before, tok, []);
      DistinctCons(tok, Keep(before, tok));
      forall x ensures x in Recent(h) <==> Solved(h, x) {
        KeepMembers(before, tok, x);
        SolvedSnoc(h, x);
        assert x in Recent(h) <==> x == tok || x in Keep(before, tok);
      }
    }
  }

  /** Some solve of the history minted this token. */
  ghost predicate Solved(h: seq<Solve>, x: seq<byte>)
  {
    exists i :: 0 <= i < |h| && h[i].tok == x
  }

  lemma SolvedSnoc(h: seq<Solve>, x: seq<byte>)
    requires h != []
    ensures Solved(h, x) <==> h[|h| - 1].tok == x || Solved(h[..|h| - 1], x)
  {
    var k := |h| - 1;
    if Solved(h, x) {
      var i :| 0 <= i < |h| && h[i].tok == x;
      assert i < k ==> h[..k][i].tok == x;
    }
    if Solved(h[..k], x) {
      var i :| 0 <= i < k && h[..k][i].tok == x;
      assert h[i].tok == x;
    }
  }

  lemma DistinctCons(x: seq<byte>, s: seq<seq<byte>>)
    requires Distinct(s) && x !in s
    ensures Distinct([x] + s)
  {
  }

  lemma {:induction false} KeepMembers(parts: seq<seq<byte>>, tok: seq<byte>, x: seq<byte>)
    ensures x in Keep(parts, tok) <==> x in parts && x != [] && x != tok
  {
    if parts != [] {
      var k := |parts| - 1;
      KeepMembers(parts[..k], tok, x);
      assert parts == parts[..k] + [parts[k]];
    }
  }

  /** The stored list is the most recent distinct tokens, newest first, at most the
      clamped maximum. */
  lemma {:induction false} StoredIsRecent(h: seq<Solve>)
    ensures StoredAfter(h) <= Recent(h)
    ensures h != [] ==> var m := h[|h| - 1].maxEntries; 1 <= |StoredAfter(h)| <= if 1 <= m <= 16 then m else 8
  {
    if h != [] {
      var k := |h| - 1;
      StoredIsRecent(h[..k]);
      StoredPrefix(StoredAfter(h[..k]), Recent(h[..k]), h[k].tok, ClampMax(h[k].maxEntries));
    }
  }

  lemma StoredPrefix(before: seq<seq<byte>>, recent: seq<seq<byte>>, tok: seq<byte>, max: nat)
    requires max >= 1 && before <= recent
    ensures Stored(before, tok, max) <= [tok] + Keep(recent, tok)
  {
    assert before == recent[..|before|];
    KeepPrefix(recent, |before|, tok);
  }

  /** Nothing is lost to truncation: under a constant maximum the list is exactly the
      first so many of the recent tokens. */
  lemma {:induction false} StoredIsAllRecent(h: seq<Solve>, maxEntries: int)
    requires forall i :: 0 <= i < |h| ==> h[i].tok != [] && h[i].maxEntries == maxEntries
    ensures StoredAfter(h) == Take(Recent(h), if 1 <= maxEntries <= 16 then maxEntries else 8)
  {
    if h != [] {
      var k, max := |h| - 1, ClampMax(maxEntries);
      var front := h[..k];
      assert forall i :: 0 <= i < |front| ==> front[i].tok != [] && front[i].maxEntries == maxEntries;
      StoredIsAllRecent(front, maxEntries);
      RecentFacts(front);
      TakeKeep(Recent(front), h[k].tok, max);
    }
  }

  /** One duplicate at most is dropped, so the cut list still fills the next one. */
  lemma TakeKeep(recent: seq<seq<byte>>, tok: seq<byte>, max: nat)
    requires max >= 1 && Distinct(recent) && [] !in recent
    ensures Stored(Take(recent, max), tok, max) == Take([tok] + Keep(recent, tok), max)
  {
    if |recent| > max {
      KeepDistinct(recent[..max], tok);
      KeepPrefix(recent, max, tok);
    }
  }

  // ----- the cookie string

  /** Bytes a token is made of: digits, lower-case letters and '.'. */
  predicate Clean(t: seq<byte>)
  {
    t != [] && forall k :: 0 <= k < |t| ==> t[k] == DOT || 48 <= t[k] <= 57 || 97 <= t[k] <= 122
  }

  /** The cookie value after a history, as the page leaves it: each solve reads the
      string, splits it, and writes the new one. */
  function CookieAfter(h: seq<Solve>): seq<byte>
  {
    if h == [] then []
    else Join(Stored(Split(CookieAfter(h[..|h| - 1]), TILDE), h[|h| - 1].tok,
                     ClampMax(h[|h| - 1].maxEntries)), TILDE)
  }

  lemma {:induction false} StoredClean(h: seq<Solve>)
    requires forall i :: 0 <= i < |h| ==> Clean(h[i].tok)
    ensures forall k :: 0 <= k < |StoredAfter(h)| ==> Clean(StoredAfter(h)[k])
  {
    RecentFacts(h);
    StoredIsRecent(h);
    forall k | 0 <= k < |StoredAfter(h)| ensures Clean(StoredAfter(h)[k]) {
      assert StoredAfter(h)[k] in Recent(h);
    }
  }

  /** Split and join are inverse on the list, so the string carries it unchanged. */
  lemma {:induction false} CookieCarriesList(h: seq<Solve>)
    requires forall i :: 0 <= i < |h| ==> Clean(h[i].tok)
    ensures CookieAfter(h) == Join(StoredAfter(h), TILDE)
    ensures h != [] ==> Split(CookieAfter(h), TILDE) == StoredAfter(h)
  {
    StoredClean(h);
    if h != [] {
      var k := |h| - 1;
      CookieCarriesList(h[..k]);
      if k == 0 {
        assert h[..0] == [];
        var blank: seq<seq<byte>> := Split([], TILDE);
        assert blank == [[]] && blank[..0] == [] && Keep(blank, h[0].tok) == [];
      }
      SplitJoin(StoredAfter(h), TILDE);
    }
  }

  // ----- the header the browser sends, and what the verifier finds in it

  /** A Cookie header whose only pair is `_bv=<value>`. */
  function SoleCookie(value: seq<byte>): seq<byte> { BV + [EQ] + value }

  predicate CookieByte(c: byte) { c == TILDE || c == DOT || 48 <= c <= 57 || 97 <= c <= 122 }

  lemma SoleCookieValues(value: seq<byte>)
    requires value != [] && forall k :: 0 <= k < |value| ==> CookieByte(value[k])
    ensures CookieValues(SoleCookie(value), BV) == [value]
  {
    var s := SoleCookie(value);
    assert s[..|s|] == s;
    IndexOfUnique(s, SEMI, |s|);
    assert s[..3] == BV;
    IndexOfUnique(s, EQ, 3);
    assert s[4..] == value;
  }

  lemma {:induction false} EntriesOfJoin(parts: seq<seq<byte>>)
    requires parts != [] && forall k :: 0 <= k < |parts| ==> Clean(parts[k])
    ensures Entries(Join(parts, TILDE)) == parts
  {
    var s, n := Join(parts, TILDE), |parts[0]|;
    assert s[..n] == parts[0];
    IndexOfUnique(s, TILDE, n);
    if |parts| > 1 {
      EntriesOfJoin(parts[1..]);
      assert s[n + 1..] == Join(parts[1..], TILDE);
    }
  }

  lemma {:induction false} JoinBytes(parts: seq<seq<byte>>)
    requires parts != [] && forall k :: 0 <= k < |parts| ==> Clean(parts[k])
    ensures Join(parts, TILDE) != []
    ensures forall k :: 0 <= k < |Join(parts, TILDE)| ==> CookieByte(Join(parts, TILDE)[k])
  {
    assert Clean(parts[0]);
    if |parts| > 1 {
      JoinBytes(parts[1..]);
    }
  }

  lemma SoleListEntries(parts: seq<seq<byte>>)
    requires 1 <= |parts| <= BUDGET && forall k :: 0 <= k < |parts| ==> Clean(parts[k])
    ensures Take(RequestEntries(SoleCookie(Join(parts, TILDE))), BUDGET) == parts
  {
    var value := Join(parts, TILDE);
    JoinBytes(parts);
    SoleCookieValues(value);
    EntriesOfJoin(parts);
    OneValue(value);
  }

  lemma OneValue(value: seq<byte>)
    ensures AllEntries([value]) == Entries(value)
  {
    var values: seq<seq<byte>> := [value];
    assert values[1..] == [];
    assert Entries(value) + [] == Entries(value);
  }

  /** The accumulated list fits the verifier's budget: it is searched completely, newest
      entry first, when it is the only `_bv` the browser sends. */
  lemma ListSearchedCompletely(h: seq<Solve>)
    requires h != [] && forall i :: 0 <= i < |h| ==> Clean(h[i].tok)
    ensures Take(RequestEntries(SoleCookie(CookieAfter(h))), BUDGET) == StoredAfter(h)
  {
    StoredClean(h);
    CookieCarriesList(h);
    StoredIsRecent(h);
    SoleListEntries(StoredAfter(h));
  }

  lemma {:induction false} TokenClean(issued: nat, target: nat, flags: nat)
    ensures Clean(Token(issued, target, flags))
  {
    NumeralClean(issued, 10);
    NumeralClean(target, 36);
    NumeralClean(flags, 36);
    JoinFour(Numeral(issued, 10), POW2, Numeral(target, 36), Numeral(flags, 36), DOT);
  }

  lemma {:induction false} NumeralClean(n: nat, b: nat)
    requires 2 <= b <= 36
    ensures Clean(Numeral(n, b))
    decreases n
  {
    if n >= b {
      DivSmaller(n, b);
      NumeralClean(n / b, b);
    }
  }

  /** The verifier looks at the newest token first. */
  lemma NewestFirst<P>(h: seq<Solve>, last: Solve, v: seq<byte> -> Option<P>)
    requires Clean(last.tok) && forall k :: 0 <= k < |h| ==> Clean(h[k].tok)
    requires v(last.tok).Some?
    ensures FirstPass(v, Take(RequestEntries(SoleCookie(CookieAfter(h + [last]))), BUDGET)) == v(last.tok)
  {
    ListSearchedCompletely(h + [last]);
    assert StoredAfter(h + [last])[0] == last.tok;
  }

  /** From the solve to the pass: a browser that has just solved, on top of any history
      of earlier solves, is let through. */
  lemma SolvedClientPasses(env: Env, h: seq<Solve>, maxEntries: int, i: nat, seed: seq<byte>,
                           issued: nat, target: nat, flags: nat, diff: nat)
    requires forall k :: 0 <= k < |h| ==> Clean(h[k].tok)
    requires Challenge(env, i, seed, issued) && flags < 36 && Difficulty(env.difficulty) <= diff <= 32
    requires IsSolution(env.f, Prefix(seed), diff, MaxIter(diff), target) && Solvable(env.f, seed, diff)
    ensures
      var after := h + [Solve(Token(issued, target, flags), maxEntries)];
      FirstPass(Verdict(env), Take(RequestEntries(SoleCookie(CookieAfter(after))), BUDGET))
      == Verdict(env)(Token(issued, target, flags))
      && Verdict(env)(Token(issued, target, flags)).Some?
  {
    TokenClean(issued, target, flags);
    MintedTokenPasses(env, i, seed, issued, target, flags, diff);
    NewestFirst(h, Solve(Token(issued, target, flags), maxEntries), Verdict(env));
  }
}
