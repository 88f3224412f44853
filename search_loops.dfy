/**
 * The two search loops both collision drivers run against one legitimate
 * suffix: the random loop (roll a random MAC until the suffix matches or a
 * countdown runs out) and the ordered loop (walk MAC counters upwards,
 * jumping over reserved blocks, until the counter reaches its end or, in
 * the multi-threaded driver, the suffix matches).
 *
 * Each loop is specified by a recursive function giving its outcome; the
 * methods run the loop and are proved to reach that outcome, and the
 * lemmas state what the outcome means.
 */
module SearchLoops {
  import opened VbaCodec
  import opened MacCounter

  /** What one search compares against: everything but the candidate MAC. */
  datatype SearchJob = SearchJob(voucherSeed: seq<bv8>, legitimateSuffix: bv64, iterations: bv16, algorithm: int)

  /** The suffix the MAC rolled from counter v would get. */
  function CandidateSuffix(kdf: Kdf, job: SearchJob, v: nat): (suffix: bv64)
    ensures (suffix >> 48) as bv16 == !job.iterations
  {
    BuildAddressSuffix(job.iterations, HashPrefix(kdf, job.voucherSeed, MacBytes(v), job.iterations, job.algorithm))
  }

  /**
   * The suffix each counter's MAC gets. The loops below are stated over any
   * such map, so that what they mean does not depend on the hash.
   */
  type SuffixOf = nat -> bv64

  /** The suffixes a search job computes. */
  function JobSuffixes(kdf: Kdf, job: SearchJob): (suffixOf: SuffixOf)
    ensures forall v :: suffixOf(v) == CandidateSuffix(kdf, job, v)
  {
    (v: nat) => CandidateSuffix(kdf, job, v)
  }

  /**
   * The body both loops share: roll the counter (or, for UINT64_MAX, the
   * random draw) into the MAC buffer, hash that MAC and build its suffix.
   */
  method EvaluateCandidate(kdf: Kdf, job: SearchJob, macBuffer: array<bv8>, rand: U64, draw: U64)
    returns (fakeSuffix: bv64)
    requires macBuffer.Length == 6
    modifies macBuffer
    ensures macBuffer[..] == MacBytes(if rand == UINT64_MAX then draw else rand)
    ensures fakeSuffix == JobSuffixes(kdf, job)(if rand == UINT64_MAX then draw else rand)
  {
    RollMacAddress(macBuffer, rand, draw);
    var fakeHash := ComputeAddressHashSuffix(kdf, job.voucherSeed, macBuffer[..], job.iterations, job.algorithm);
    fakeSuffix := BuildAddressSuffix(job.iterations, fakeHash);
  }

  /** The MAC and voucher seed of the legitimate node both collision drivers attack. */
  const STABLE_MAC_ADDRESS: Mac := [0xC0, 0x01, 0xCA, 0x70, 0xFF, 0xFF]
  const STABLE_VOUCHER_SEED: seq<bv8> := [0xDE, 0xAD, 0xBE, 0xEF, 0xCA, 0xFE, 0xF0, 0x0D]

  /** The legitimate node's suffix for an iteration count: the target every search of that round compares against. */
  function LegitimateSuffix(kdf: Kdf, iterations: bv16, algorithm: int): (suffix: bv64)
    ensures RecoverIterations(suffix) == iterations
  {
    SuffixRoundTrip(iterations, HashPrefix(kdf, STABLE_VOUCHER_SEED, STABLE_MAC_ADDRESS, iterations, algorithm));
    BuildAddressSuffix(iterations, HashPrefix(kdf, STABLE_VOUCHER_SEED, STABLE_MAC_ADDRESS, iterations, algorithm))
  }

  /** The search job of one round: the stable seed, the legitimate suffix, the round's iteration count and the algorithm. */
  function StableJob(kdf: Kdf, iterations: bv16, algorithm: int): SearchJob
  {
    SearchJob(STABLE_VOUCHER_SEED, LegitimateSuffix(kdf, iterations, algorithm), iterations, algorithm)
  }

  /** The random values the generator hands out, one per attempt. */
  type Draws = nat -> U64

  function Last(s: seq<nat>): nat
    requires |s| >= 1
  {
    s[|s| - 1]
  }

  // ---------------------------------------------------------------------------
  // The random loop.
  // ---------------------------------------------------------------------------

  /** How a random search ended: attempts made, the countdown left, the last MAC and its suffix. */
  datatype RandomOutcome = RandomOutcome(attempts: nat, loopBreaker: nat, lastDraw: nat, lastSuffix: bv64)

  /**
   * The random loop from attempt i with the countdown at loopBreaker: roll
   * draw i, compute its suffix, decrement the countdown, and go on while
   * the countdown is non-zero and the suffix differs.
   */
  function RandomFrom(suffixOf: SuffixOf, target: bv64, draws: Draws, i: nat, loopBreaker: nat): (o: RandomOutcome)
    requires loopBreaker >= 1
    ensures i < o.attempts <= i + loopBreaker
    ensures o.loopBreaker == i + loopBreaker - o.attempts
    ensures o.lastDraw == draws(o.attempts - 1) && o.lastSuffix == suffixOf(o.lastDraw)
    ensures o.loopBreaker == 0 || o.lastSuffix == target
    decreases loopBreaker
  {
    var suffix := suffixOf(draws(i));
    var breaker := loopBreaker - 1;
    if breaker != 0 && suffix != target then RandomFrom(suffixOf, target, draws, i + 1, breaker)
    else RandomOutcome(i + 1, breaker, draws(i), suffix)
  }

  /** The search reports success exactly when the countdown did not reach zero. */
  predicate RandomReportsSuccess(o: RandomOutcome) {
    o.loopBreaker != 0
  }

  /**
   * A random search with countdown `budget` reports success exactly when one
   * of its first budget - 1 draws collides; the draw of the last attempt is
   * evaluated but its result is discarded. On success the reported MAC is
   * the first colliding one.
   */
  lemma {:induction false} RandomSuccessIff(suffixOf: SuffixOf, target: bv64, draws: Draws, i: nat, budget: nat)
    requires budget >= 1
    ensures RandomReportsSuccess(RandomFrom(suffixOf, target, draws, i, budget))
            <==> exists j :: i <= j < i + budget - 1 && suffixOf(draws(j)) == target
    ensures forall j :: i <= j < RandomFrom(suffixOf, target, draws, i, budget).attempts - 1 ==> suffixOf(draws(j)) != target
    decreases budget
  {
    if budget - 1 != 0 && suffixOf(draws(i)) != target {
      RandomSuccessIff(suffixOf, target, draws, i + 1, budget - 1);
    }
  }

  /** A collision found only on the last attempt of the countdown is reported as a failure. */
  lemma LastAttemptDiscarded(suffixOf: SuffixOf, target: bv64, draws: Draws, budget: nat)
    requires budget >= 1
    requires forall j :: 0 <= j < budget - 1 ==> suffixOf(draws(j)) != target
    requires suffixOf(draws(budget - 1)) == target
    ensures !RandomReportsSuccess(RandomFrom(suffixOf, target, draws, 0, budget))
    ensures RandomFrom(suffixOf, target, draws, 0, budget).lastSuffix == target
  {
    RandomSuccessIff(suffixOf, target, draws, 0, budget);
  }

  /**
   * The random do-while loop: roll a random MAC into the buffer, compute its
   * suffix, and repeat while `--loopBreaker` is non-zero and the suffix differs.
   */
  method RandomSearch(kdf: Kdf, job: SearchJob, draws: Draws, budget: nat)
    returns (loopBreaker: nat, fakeMac: Mac, fakeSuffix: bv64)
    requires budget >= 1
    ensures var o := RandomFrom(JobSuffixes(kdf, job), job.legitimateSuffix, draws, 0, budget);
            loopBreaker == o.loopBreaker && fakeMac == MacBytes(o.lastDraw) && fakeSuffix == o.lastSuffix
  {
    ghost var suffixOf := JobSuffixes(kdf, job);
    ghost var o := RandomFrom(suffixOf, job.legitimateSuffix, draws, 0, budget);
    var fakeMacBuffer := new bv8[6];
    loopBreaker := budget;
    var attempt := 0;
    while true
      invariant loopBreaker >= 1 && attempt + loopBreaker == budget
      invariant RandomFrom(suffixOf, job.legitimateSuffix, draws, attempt, loopBreaker) == o
      decreases loopBreaker
    {
      fakeSuffix := EvaluateCandidate(kdf, job, fakeMacBuffer, UINT64_MAX, draws(attempt));
      loopBreaker := loopBreaker - 1;
      attempt := attempt + 1;
      if !(loopBreaker != 0 && fakeSuffix != job.legitimateSuffix) {
        break;
      }
    }
    fakeMac := fakeMacBuffer[..];
  }

  // ---------------------------------------------------------------------------
  // The ordered loop.
  // ---------------------------------------------------------------------------

  /**
   * How an ordered search ended: the counters evaluated, in order, the last
   * of them and its suffix.
   */
  datatype OrderedOutcome = OrderedOutcome(evaluated: seq<nat>, lastMac: nat, lastSuffix: bv64)
  {
    /** The value of `mac` after the loop: one past the last counter evaluated. */
    function FinalMac(): nat {
      lastMac + 1
    }
  }

  /**
   * The ordered loop from counter `mac`: apply the block jumps, evaluate the
   * counter, increment it, and go on while it is below `endingMac` and,
   * when `exitOnMatch` holds, the suffix differs. The multi-threaded driver
   * exits on a match; the single-threaded one does not.
   */
  function OrderedFrom(suffixOf: SuffixOf, target: bv64, mac: nat, endingMac: nat, exitOnMatch: bool): (o: OrderedOutcome)
    ensures |o.evaluated| >= 1 && mac <= o.lastMac
    ensures o.lastSuffix == suffixOf(o.lastMac)
    ensures o.FinalMac() >= endingMac || (exitOnMatch && o.lastSuffix == target)
    decreases endingMac - mac
  {
    var v := Skip(mac);
    if Continues(suffixOf, target, v, endingMac, exitOnMatch) then
      var rest := OrderedFrom(suffixOf, target, v + 1, endingMac, exitOnMatch);
      OrderedOutcome([v] + rest.evaluated, rest.lastMac, rest.lastSuffix)
    else
      OrderedOutcome([v], v, suffixOf(v))
  }

  /** Whether the loop goes round again after evaluating counter v. */
  predicate Continues(suffixOf: SuffixOf, target: bv64, v: nat, endingMac: nat, exitOnMatch: bool) {
    v + 1 < endingMac && !(exitOnMatch && suffixOf(v) == target)
  }

  /** A round after which the loop goes on: the counter it evaluated, then the rest of the loop. */
  lemma OrderedGoesOn(suffixOf: SuffixOf, target: bv64, mac: nat, endingMac: nat, exitOnMatch: bool)
    requires Continues(suffixOf, target, Skip(mac), endingMac, exitOnMatch)
    ensures var rest := OrderedFrom(suffixOf, target, Skip(mac) + 1, endingMac, exitOnMatch);
            OrderedFrom(suffixOf, target, mac, endingMac, exitOnMatch)
              == OrderedOutcome([Skip(mac)] + rest.evaluated, rest.lastMac, rest.lastSuffix)
  {
  }

  /** The same, stated for the counter the next round starts from. */
  lemma OrderedGoesOnTo(suffixOf: SuffixOf, target: bv64, mac: nat, next: nat, endingMac: nat, exitOnMatch: bool)
    requires next == Skip(mac) + 1 && Continues(suffixOf, target, Skip(mac), endingMac, exitOnMatch)
    ensures OrderedFrom(suffixOf, target, mac, endingMac, exitOnMatch).lastMac
            == OrderedFrom(suffixOf, target, next, endingMac, exitOnMatch).lastMac
  {
  }

  /** A round after which the loop stops: the counter it evaluated is the only and the last one. */
  lemma OrderedStops(suffixOf: SuffixOf, target: bv64, mac: nat, endingMac: nat, exitOnMatch: bool)
    requires !Continues(suffixOf, target, Skip(mac), endingMac, exitOnMatch)
    ensures OrderedFrom(suffixOf, target, mac, endingMac, exitOnMatch)
            == OrderedOutcome([Skip(mac)], Skip(mac), suffixOf(Skip(mac)))
  {
  }

  /** Each counter in s is below the next. */
  ghost predicate StrictlyIncreasing(s: seq<nat>) {
    forall j, k :: 0 <= j < k < |s| ==> s[j] < s[k]
  }

  /** Every counter in s lies between lo and hi, inclusive. */
  ghost predicate AllWithin(s: seq<nat>, lo: nat, hi: nat) {
    forall k :: 0 <= k < |s| ==> lo <= s[k] <= hi
  }

  lemma PrependWithin(v: nat, rest: seq<nat>, lo: nat, mid: nat, hi: nat)
    requires lo <= v <= hi && lo <= mid && AllWithin(rest, mid, hi)
    ensures AllWithin([v] + rest, lo, hi)
  {
    assert forall k :: 1 <= k < |rest| + 1 ==> ([v] + rest)[k] == rest[k - 1];
  }

  lemma PrependIncreasing(v: nat, rest: seq<nat>, hi: nat)
    requires StrictlyIncreasing(rest) && AllWithin(rest, v + 1, hi)
    ensures StrictlyIncreasing([v] + rest)
  {
    assert forall k :: 1 <= k < |rest| + 1 ==> ([v] + rest)[k] == rest[k - 1];
  }

  /** The last counter evaluated is the one the outcome reports. */
  lemma {:induction false} OrderedLast(suffixOf: SuffixOf, target: bv64, mac: nat, endingMac: nat, exitOnMatch: bool)
    ensures Last(OrderedFrom(suffixOf, target, mac, endingMac, exitOnMatch).evaluated)
            == OrderedFrom(suffixOf, target, mac, endingMac, exitOnMatch).lastMac
    decreases endingMac - mac
  {
    if Continues(suffixOf, target, Skip(mac), endingMac, exitOnMatch) {
      OrderedLast(suffixOf, target, Skip(mac) + 1, endingMac, exitOnMatch);
      OrderedGoesOn(suffixOf, target, mac, endingMac, exitOnMatch);
    } else {
      OrderedStops(suffixOf, target, mac, endingMac, exitOnMatch);
    }
  }

  /** Every counter evaluated lies between the start and the last one. */
  lemma {:induction false} OrderedWithin(suffixOf: SuffixOf, target: bv64, mac: nat, endingMac: nat, exitOnMatch: bool)
    ensures AllWithin(OrderedFrom(suffixOf, target, mac, endingMac, exitOnMatch).evaluated, mac,
                      OrderedFrom(suffixOf, target, mac, endingMac, exitOnMatch).lastMac)
    decreases endingMac - mac
  {
    var v := Skip(mac);
    if Continues(suffixOf, target, v, endingMac, exitOnMatch) {
      OrderedWithin(suffixOf, target, v + 1, endingMac, exitOnMatch);
      OrderedGoesOn(suffixOf, target, mac, endingMac, exitOnMatch);
      var rest := OrderedFrom(suffixOf, target, v + 1, endingMac, exitOnMatch);
      PrependWithin(v, rest.evaluated, mac, v + 1, rest.lastMac);
    } else {
      OrderedStops(suffixOf, target, mac, endingMac, exitOnMatch);
      PrependWithin(v, [], mac, mac, v);
    }
  }

  /** The counters are evaluated in strictly increasing order: none twice. */
  lemma {:induction false} OrderedIncreasing(suffixOf: SuffixOf, target: bv64, mac: nat, endingMac: nat, exitOnMatch: bool)
    ensures StrictlyIncreasing(OrderedFrom(suffixOf, target, mac, endingMac, exitOnMatch).evaluated)
    decreases endingMac - mac
  {
    var v := Skip(mac);
    if Continues(suffixOf, target, v, endingMac, exitOnMatch) {
      var rest := OrderedFrom(suffixOf, target, v + 1, endingMac, exitOnMatch);
      assert StrictlyIncreasing([v] + rest.evaluated) by {
        OrderedIncreasing(suffixOf, target, v + 1, endingMac, exitOnMatch);
        OrderedWithin(suffixOf, target, v + 1, endingMac, exitOnMatch);
        PrependIncreasing(v, rest.evaluated, rest.lastMac);
      }
      assert OrderedFrom(suffixOf, target, mac, endingMac, exitOnMatch).evaluated == [v] + rest.evaluated by {
        OrderedGoesOn(suffixOf, target, mac, endingMac, exitOnMatch);
      }
    } else {
      OrderedStops(suffixOf, target, mac, endingMac, exitOnMatch);
    }
  }

  /** A counter outside every block is followed by one that is not inside a block's interior. */
  lemma NextNotInterior(v: nat)
    requires !InReservedBlock(v)
    ensures !InBlockInterior(v + 1)
  {
  }

  /** The counters in `evaluated` are exactly those from lo up to hi outside every reserved block. */
  ghost predicate UnreservedBetween(evaluated: seq<nat>, lo: nat, hi: nat) {
    forall w :: w in evaluated <==> lo <= w < hi && !InReservedBlock(w)
  }

  /** Evaluating Skip(mac) and then exactly the unreserved counters above it evaluates exactly the unreserved counters from mac. */
  lemma ExactlyStep(mac: nat, rest: seq<nat>, finalMac: nat)
    requires !InReservedBlock(Skip(mac)) && Skip(mac) < finalMac
    requires UnreservedBetween(rest, Skip(mac) + 1, finalMac)
    ensures UnreservedBetween([Skip(mac)] + rest, mac, finalMac)
  {
    forall w ensures w in [Skip(mac)] + rest <==> mac <= w < finalMac && !InReservedBlock(w) {
      if mac <= w < Skip(mac) {
        SkippedAreReserved(mac, w);
      }
    }
  }

  /**
   * Started outside a block's interior, the ordered search evaluates exactly
   * the counters from its start up to its final counter that lie outside
   * every reserved block.
   */
  lemma {:induction false} OrderedEvaluatesExactly(suffixOf: SuffixOf, target: bv64, mac: nat, endingMac: nat, exitOnMatch: bool)
    requires !InBlockInterior(mac)
    ensures UnreservedBetween(OrderedFrom(suffixOf, target, mac, endingMac, exitOnMatch).evaluated, mac,
                              OrderedFrom(suffixOf, target, mac, endingMac, exitOnMatch).FinalMac())
    decreases endingMac - mac
  {
    var v := Skip(mac);
    SkipLandsOutside(mac);
    if Continues(suffixOf, target, v, endingMac, exitOnMatch) {
      NextNotInterior(v);
      OrderedEvaluatesExactly(suffixOf, target, v + 1, endingMac, exitOnMatch);
      OrderedGoesOn(suffixOf, target, mac, endingMac, exitOnMatch);
      var rest := OrderedFrom(suffixOf, target, v + 1, endingMac, exitOnMatch);
      ExactlyStep(mac, rest.evaluated, rest.FinalMac());
    } else {
      OrderedStops(suffixOf, target, mac, endingMac, exitOnMatch);
      ExactlyStep(mac, [], v + 1);
      assert [v] + [] == [v];
    }
  }

  /** No counter in s except the last one has the target suffix. */
  ghost predicate NoEarlierMatch(suffixOf: SuffixOf, target: bv64, s: seq<nat>) {
    forall k :: 0 <= k < |s| - 1 ==> suffixOf(s[k]) != target
  }

  lemma PrependNoEarlierMatch(suffixOf: SuffixOf, target: bv64, v: nat, rest: seq<nat>)
    requires suffixOf(v) != target && NoEarlierMatch(suffixOf, target, rest)
    ensures NoEarlierMatch(suffixOf, target, [v] + rest)
  {
    assert forall k :: 1 <= k < |rest| + 1 ==> ([v] + rest)[k] == rest[k - 1];
  }

  /** With exit on match, no counter before the last one evaluated collides. */
  lemma {:induction false} OrderedStopsAtFirstMatch(suffixOf: SuffixOf, target: bv64, mac: nat, endingMac: nat)
    ensures NoEarlierMatch(suffixOf, target, OrderedFrom(suffixOf, target, mac, endingMac, true).evaluated)
    decreases endingMac - mac
  {
    var v := Skip(mac);
    if Continues(suffixOf, target, v, endingMac, true) {
      OrderedStopsAtFirstMatch(suffixOf, target, v + 1, endingMac);
      OrderedGoesOn(suffixOf, target, mac, endingMac, true);
      PrependNoEarlierMatch(suffixOf, target, v, OrderedFrom(suffixOf, target, v + 1, endingMac, true).evaluated);
    } else {
      OrderedStops(suffixOf, target, mac, endingMac, true);
    }
  }

  /** Every counter in s is below the end or is the landing of a jump. */
  ghost predicate BelowEndOrLanding(s: seq<nat>, endingMac: nat) {
    forall k :: 0 <= k < |s| ==> s[k] < endingMac || IsLanding(s[k])
  }

  lemma PrependBelowEndOrLanding(v: nat, rest: seq<nat>, endingMac: nat)
    requires v < endingMac || IsLanding(v)
    requires BelowEndOrLanding(rest, endingMac)
    ensures BelowEndOrLanding([v] + rest, endingMac)
  {
    assert forall k :: 1 <= k < |rest| + 1 ==> ([v] + rest)[k] == rest[k - 1];
  }

  /**
   * Started below its end, the search evaluates only counters below the end
   * or the landing of a jump, and its final counter is at most the end or
   * one past the highest landing.
   */
  lemma {:induction false} OrderedStaysInRange(suffixOf: SuffixOf, target: bv64, mac: nat, endingMac: nat, exitOnMatch: bool)
    requires mac < endingMac
    ensures BelowEndOrLanding(OrderedFrom(suffixOf, target, mac, endingMac, exitOnMatch).evaluated, endingMac)
    ensures OrderedFrom(suffixOf, target, mac, endingMac, exitOnMatch).FinalMac()
            <= if endingMac < HIGHEST_LANDING + 1 then HIGHEST_LANDING + 1 else endingMac
    decreases endingMac - mac
  {
    var v := Skip(mac);
    SkipCases(mac);
    if Continues(suffixOf, target, v, endingMac, exitOnMatch) {
      OrderedStaysInRange(suffixOf, target, v + 1, endingMac, exitOnMatch);
      OrderedGoesOn(suffixOf, target, mac, endingMac, exitOnMatch);
      PrependBelowEndOrLanding(v, OrderedFrom(suffixOf, target, v + 1, endingMac, exitOnMatch).evaluated, endingMac);
    } else {
      OrderedStops(suffixOf, target, mac, endingMac, exitOnMatch);
      PrependBelowEndOrLanding(v, [], endingMac);
    }
  }

  /**
   * The ordered do-while loop: the four block tests, roll the counter into
   * the MAC buffer, compute its suffix, and repeat while `++mac` is below the
   * end (and, with exit on match, the suffix differs).
   */
  method OrderedSearch(kdf: Kdf, job: SearchJob, startingMac: nat, endingMac: nat, exitOnMatch: bool)
    returns (mac: nat, fakeMac: Mac, fakeSuffix: bv64)
    requires startingMac < MAC_SPACE && endingMac <= MAC_SPACE
    ensures var o := OrderedFrom(JobSuffixes(kdf, job), job.legitimateSuffix, startingMac, endingMac, exitOnMatch);
            mac == o.FinalMac() && fakeMac == MacBytes(o.lastMac) && fakeSuffix == o.lastSuffix
  {
    ghost var suffixOf := JobSuffixes(kdf, job);
    ghost var o := OrderedFrom(suffixOf, job.legitimateSuffix, startingMac, endingMac, exitOnMatch);
    var fakeMacBuffer := new bv8[6];
    mac := startingMac;
    while true
      invariant mac < MAC_SPACE
      invariant OrderedFrom(suffixOf, job.legitimateSuffix, mac, endingMac, exitOnMatch).lastMac == o.lastMac
      decreases endingMac - mac
    {
      ghost var before := mac;
      mac := SkipReserved(mac);
      fakeSuffix := EvaluateCandidate(kdf, job, fakeMacBuffer, mac, 0);
      fakeMac := fakeMacBuffer[..];
      mac := mac + 1;
      if !(mac < endingMac && !(exitOnMatch && fakeSuffix == job.legitimateSuffix)) {
        OrderedStops(suffixOf, job.legitimateSuffix, before, endingMac, exitOnMatch);
        break;
      }
      OrderedGoesOnTo(suffixOf, job.legitimateSuffix, before, mac, endingMac, exitOnMatch);
    }
  }
}
