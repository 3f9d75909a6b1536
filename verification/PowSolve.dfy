/** The two solver loops of challenge.js: the worker's flat loop, and the batched one
    the page falls back to when it cannot create a worker. */
module PowSolve {
  import opened Bytes
  import opened LeadingZeros
  import opened Numerals
  import opened Sha256
  import opened PowHasher

  const BATCH := 5000
  const NONCE_BOUND := 10_000_000_000_000_000

  /** MAX_ITER: about eight times the expected work, at least ten million. */
  function MaxIter(diff: nat): nat
  {
    if Pow2(diff) * 8 > 10_000_000 then Pow2(diff) * 8 else 10_000_000
  }

  lemma {:induction false} Pow2Monotone(j: nat, k: nat)
    requires j <= k
    ensures Pow2(j) <= Pow2(k)
    decreases k
  {
    if j < k { Pow2Monotone(j, k - 1); }
  }

  /** Every nonce a loop can reach has at most sixteen digits. */
  lemma MaxIterFits(diff: nat)
    requires diff <= 32
    ensures MaxIter(diff) <= NONCE_BOUND
  {
    Pow2Monotone(diff, 32);
    Pow2Values();
  }

  /** The limit is eight times the expected work, and never below ten million. */
  lemma MaxIterIs(diff: nat)
    ensures MaxIter(diff) >= 8 * Pow2(diff) && MaxIter(diff) >= 10_000_000
    ensures MaxIter(diff) == 8 * Pow2(diff) || MaxIter(diff) == 10_000_000
  {
  }

  /** SHA-256(pre + n) has at least `diff` leading zero bits. */
  predicate Meets(f: Compression, pre: seq<byte>, n: nat, diff: int)
  {
    var m := pre + Numeral(n, 10);
    |m| < 0x2000_0000_0000_0000 && PowBits(f, m) >= diff
  }

  /** What both loops promise: the least nonce below the limit that meets the
      difficulty, or 0 when none does. */
  ghost predicate IsSolution(f: Compression, pre: seq<byte>, diff: int, max: nat, target: nat)
  {
    || (target < max && Meets(f, pre, target, diff)
        && forall k: nat :: k < target ==> !Meets(f, pre, k, diff))
    || (target == 0 && forall k: nat :: k < max ==> !Meets(f, pre, k, diff))
  }

  /** The answer is determined: the two loops agree. */
  lemma SolutionUnique(f: Compression, pre: seq<byte>, diff: int, max: nat, a: nat, b: nat)
    requires IsSolution(f, pre, diff, max, a) && IsSolution(f, pre, diff, max, b)
    ensures a == b
  {
    if a < b && Meets(f, pre, a, diff) {
      assert false;
    }
  }

  /** Every message the loops hash is one the hasher's 32-bit length can tell. */
  ghost predicate ShortMessages(pre: seq<byte>, max: nat)
  {
    forall n: nat :: n < max ==> |pre + Numeral(n, 10)| < 0x2000_0000
  }

  method SolveInWorker(h: Hasher, diff: int, max: nat) returns (target: nat)
    requires h.Valid() && max <= NONCE_BOUND && ShortMessages(h.pre, max)
    modifies h.buf, h.st, h.digits
    ensures h.Valid() && IsSolution(h.f, h.pre, diff, max, target)
  {
    for n := 0 to max
      invariant h.Valid()
      invariant forall k: nat :: k < n ==> !Meets(h.f, h.pre, k, diff)
    {
      var bits := h.BitsOf(n);
      if bits >= diff {
        return n;
      }
    }
    return 0;
  }

  method SolveInBatches(h: Hasher, diff: int, max: nat) returns (target: nat)
    requires h.Valid() && max <= NONCE_BOUND && ShortMessages(h.pre, max)
    modifies h.buf, h.st, h.digits
    ensures h.Valid() && IsSolution(h.f, h.pre, diff, max, target)
  {
    target := 0;
    var nonce := 0;
    while nonce < max
      invariant h.Valid() && 0 <= nonce <= max && target == 0
      invariant || (forall k: nat :: k < nonce ==> !Meets(h.f, h.pre, k, diff))
                || (nonce == max && 0 < max && Meets(h.f, h.pre, 0, diff))
    {
      var batchEnd := if nonce + BATCH < max then nonce + BATCH else max;
      while nonce < batchEnd
        invariant h.Valid() && 0 <= nonce <= batchEnd <= max && target == 0
        invariant forall k: nat :: k < nonce ==> !Meets(h.f, h.pre, k, diff)
      {
        var bits := h.BitsOf(nonce);
        if bits >= diff {
          target, nonce := nonce, max;
          break;
        }
        nonce := nonce + 1;
      }
      if target > 0 { return; }
    }
  }
}
