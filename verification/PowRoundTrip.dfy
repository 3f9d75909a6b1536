/** One solve from end to end: the page builds its hasher, searches, mints a token and puts it
    in front of its `_bv` list; the verifier then reads the header the browser sends. */
module PowRoundTrip {
  import opened Wrappers
  import opened Bytes
  import opened Numerals
  import opened PowHasher
  import opened PowSolve
  import opened EntrySearch
  import opened PassCookie
  import opened BvList
  import Utf8

  /** A derived seed is short: no message the search hashes comes near the hasher's limit. */
  lemma SeedMessagesShort(env: Env, i: nat, seed: seq<byte>, issued: nat, diff: nat)
    requires Seed(env, i, issued) == Some(seed) && diff <= 32
    ensures ShortMessages(Prefix(seed), MaxIter(diff))
  {
    SeedIsAscii(env, i, issued);
    Utf8.Utf8Ascii(seed + [COLON]);
    MaxIterFits(diff);
    forall n: nat | n < MaxIter(diff) ensures |Prefix(seed) + Numeral(n, 10)| < 0x2000_0000 {
      Pow10Values();
      NumeralLength(n, 10, 16);
    }
  }

  /** The search in a worker, or on the page where there is none. */
  method Search(env: Env, seed: seq<byte>, diff: nat, worker: bool) returns (target: nat)
    requires diff <= 32 && ShortMessages(Prefix(seed), MaxIter(diff))
    ensures IsSolution(env.f, Prefix(seed), diff, MaxIter(diff), target)
  {
    MaxIterFits(diff);
    var h := new Hasher(env.f, seed);
    if worker {
      target := SolveInWorker(h, diff, MaxIter(diff));
    } else {
      target := SolveInBatches(h, diff, MaxIter(diff));
    }
  }

  /** Search, then mint: at the verifier's difficulty the token passes exactly when some nonce
      in reach solves the challenge, or nonce 0 happens to answer the other seed. */
  method MintToken(env: Env, i: nat, seed: seq<byte>, issued: nat, flags: nat, diff: nat, worker: bool)
    returns (tok: seq<byte>)
    requires Challenge(env, i, seed, issued) && flags < 36 && Difficulty(env.difficulty) == diff
    ensures Clean(tok)
    ensures Verdict(env)(tok).Some? <==> Solvable(env.f, seed, diff) || SeedAccepts(env, 1 - i, issued, 0)
  {
    SeedMessagesShort(env, i, seed, issued, diff);
    var target := Search(env, seed, diff, worker);
    TokenClean(issued, target, flags);
    MintedTokenIsExact(env, i, seed, issued, target, flags, diff);
    tok := Token(issued, target, flags);
  }

  /** The whole way, on top of any history of earlier solves: a client whose challenge can be
      solved is let through, by the token it has just minted. */
  method SolveAndVisit(env: Env, i: nat, seed: seq<byte>, issued: nat, flags: nat, diff: nat, worker: bool,
                       prior: seq<byte>, maxEntries: int, ghost h: seq<Solve>)
    returns (tok: seq<byte>, list: seq<byte>, pass: Option<Pass>)
    requires Challenge(env, i, seed, issued) && flags < 36 && Difficulty(env.difficulty) == diff && env.secret != []
    requires prior == CookieAfter(h) && forall k :: 0 <= k < |h| ==> Clean(h[k].tok)
    ensures list == CookieAfter(h + [Solve(tok, maxEntries)])
    ensures pass == FirstPass(Verdict(env), StoredAfter(h + [Solve(tok, maxEntries)]))
    ensures Solvable(env.f, seed, diff) ==> pass.Some? && pass == Verdict(env)(tok)
  {
    tok := MintToken(env, i, seed, issued, flags, diff, worker);
    list := Accumulate(prior, tok, maxEntries);
    NextCookie(h, Solve(tok, maxEntries));
    ghost var checked;
    pass, checked := KindCompute(env, SoleCookie(list));
    VisitFinds(h, Solve(tok, maxEntries), Verdict(env));
  }

  lemma NextCookie(h: seq<Solve>, last: Solve)
    ensures CookieAfter(h + [last])
         == Join(Stored(Split(CookieAfter(h), TILDE), last.tok, ClampMax(last.maxEntries)), TILDE)
  {
    assert (h + [last])[..|h|] == h;
  }

  lemma VisitFinds<P>(h: seq<Solve>, last: Solve, v: seq<byte> -> Option<P>)
    requires Clean(last.tok) && forall k :: 0 <= k < |h| ==> Clean(h[k].tok)
    ensures var found := FirstPass(v, Take(RequestEntries(SoleCookie(CookieAfter(h + [last]))), BUDGET));
      && found == FirstPass(v, StoredAfter(h + [last])) && (v(last.tok).Some? ==> found == v(last.tok))
  {
    ListSearchedCompletely(h + [last]);
    if v(last.tok).Some? { NewestFirst(h, last, v); }
  }
}
