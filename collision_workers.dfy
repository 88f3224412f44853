/**
 * The multi-threaded collision driver of vba-collision-tests: the random and
 * the ordered worker routines, the 32-way partition of the 48-bit MAC space,
 * the shared "match found" flags and the round loop over the iteration-count
 * table.
 *
 * The 32 workers of a round run concurrently in the source; here they run one
 * after another, so a round's flag ends up as the OR of its workers' writes.
 */
module CollisionWorkers {
  import opened VbaCodec
  import opened MacCounter
  import opened SearchLoops
  import opened AddressText

  const THREAD_COUNT := 32
  /** MACs in each worker's share: 2^48 / 32 = 2^43. */
  const MACS_PER_THREAD := MAC_SPACE / THREAD_COUNT
  /** The countdown of the random worker, `1ULL << 24`. */
  const RANDOM_ATTEMPTS := 0x100_0000
  /** A final counter at or above this value makes the ordered worker report failure. */
  const EXHAUSTED_MAC := 0xFFFF_FFFF_FFFF

  /** The bool a worker context points to: set by any worker that reports success. */
  class MatchFlag {
    var value: bool

    constructor()
      ensures !value
    {
      value := false;
    }
  }

  /** worker_ctx_t without the thread handle. */
  datatype WorkerContext = WorkerContext(id: nat, startingMac: nat, endingMac: nat, job: SearchJob, matchFound: MatchFlag)

  /** The random values each worker of each round receives: `draws(round, worker)`. */
  type RoundDraws = (nat, nat) -> Draws

  // ---------------------------------------------------------------------------
  // The two thread routines.
  // ---------------------------------------------------------------------------

  /** Whether a random worker of this job with these draws reports success. */
  predicate RandomWorkerSucceeds(kdf: Kdf, job: SearchJob, draws: Draws) {
    RandomReportsSuccess(RandomFrom(JobSuffixes(kdf, job), job.legitimateSuffix, draws, 0, RANDOM_ATTEMPTS))
  }

  /**
   * _thread_routine_collision_random: the random loop with a countdown of
   * 2^24; on success it sets the shared flag and reports the impostor MAC.
   */
  method RandomWorker(kdf: Kdf, ctx: WorkerContext, draws: Draws) returns (success: bool, fakeMac: Mac)
    modifies ctx.matchFound
    ensures var o := RandomFrom(JobSuffixes(kdf, ctx.job), ctx.job.legitimateSuffix, draws, 0, RANDOM_ATTEMPTS);
            success == RandomReportsSuccess(o) && fakeMac == MacBytes(o.lastDraw)
    ensures ctx.matchFound.value == (old(ctx.matchFound.value) || success)
  {
    var loopBreaker, lastMac, lastSuffix := RandomSearch(kdf, ctx.job, draws, RANDOM_ATTEMPTS);
    fakeMac := lastMac;
    if loopBreaker == 0 {
      success := false;
    } else {
      ctx.matchFound.value := true;
      success := true;
    }
  }

  /** The report test after the ordered loop: failure only once the counter reached 0xFFFFFFFFFFFF. */
  predicate OrderedReportsSuccess(o: OrderedOutcome) {
    !(o.FinalMac() >= EXHAUSTED_MAC)
  }

  /**
   * _thread_routine_collision_ordered: the ordered loop over the context's
   * range with exit on match; it sets the shared flag unless the final
   * counter reached 0xFFFFFFFFFFFF.
   */
  method OrderedWorker(kdf: Kdf, ctx: WorkerContext) returns (success: bool, fakeMac: Mac)
    requires ctx.startingMac < MAC_SPACE && ctx.endingMac <= MAC_SPACE
    modifies ctx.matchFound
    ensures var o := OrderedFrom(JobSuffixes(kdf, ctx.job), ctx.job.legitimateSuffix, ctx.startingMac, ctx.endingMac, true);
            success == OrderedReportsSuccess(o) && fakeMac == MacBytes(o.lastMac)
    ensures ctx.matchFound.value == (old(ctx.matchFound.value) || success)
  {
    var mac, lastMac, lastSuffix := OrderedSearch(kdf, ctx.job, ctx.startingMac, ctx.endingMac, true);
    fakeMac := lastMac;
    if mac >= EXHAUSTED_MAC {
      success := false;
    } else {
      ctx.matchFound.value := true;
      success := true;
    }
  }

  // ---------------------------------------------------------------------------
  // The partition of the MAC space.
  // ---------------------------------------------------------------------------

  /** `x * MACS_PER_THREAD`: where worker x starts. */
  function PartitionStart(x: nat): nat {
    x * MACS_PER_THREAD
  }

  /** `((x + 1) * MACS_PER_THREAD) - 1`: the end worker x stops before. */
  function PartitionEnd(x: nat): nat {
    (x + 1) * MACS_PER_THREAD - 1
  }

  /** Every share lies inside the MAC space. */
  lemma PartitionBounds(x: nat)
    requires x < THREAD_COUNT
    ensures PartitionStart(x) < PartitionEnd(x) < MAC_SPACE
  {
    assert MACS_PER_THREAD == 0x800_0000_0000;
  }

  /** The worker whose share holds counter v. */
  function WorkerOf(v: nat): nat {
    v / MACS_PER_THREAD
  }

  /**
   * The shares cover the MAC space: each counter lies between the start and
   * the end of exactly one worker's share, and the ends are the only counters
   * no worker starts below and stops after.
   */
  lemma PartitionCovers(v: nat, x: nat)
    requires v < MAC_SPACE && x < THREAD_COUNT
    ensures WorkerOf(v) < THREAD_COUNT && PartitionStart(WorkerOf(v)) <= v <= PartitionEnd(WorkerOf(v))
    ensures PartitionStart(x) <= v <= PartitionEnd(x) ==> x == WorkerOf(v)
  {
    var w := WorkerOf(v);
    assert v == MACS_PER_THREAD * w + v % MACS_PER_THREAD;
    if PartitionStart(x) <= v <= PartitionEnd(x) {
      assert x * MACS_PER_THREAD <= v < x * MACS_PER_THREAD + MACS_PER_THREAD;
      ModUnique(v, MACS_PER_THREAD, x, v - x * MACS_PER_THREAD);
    }
  }

  /** The shares do not overlap: a later worker starts after an earlier one's end. */
  lemma PartitionsDisjoint(x: nat, y: nat)
    requires x < y
    ensures PartitionEnd(x) < PartitionStart(y)
  {
    assert MACS_PER_THREAD == 0x800_0000_0000;
  }

  /** The ordered search of worker x. */
  function WorkerSearch(suffixOf: SuffixOf, target: bv64, x: nat): OrderedOutcome {
    OrderedFrom(suffixOf, target, PartitionStart(x), PartitionEnd(x), true)
  }

  /** A share's end is odd, while every landing is a multiple of 2^24. */
  lemma PartitionEndNotLanding(y: nat)
    ensures !IsLanding(PartitionEnd(y))
  {
    assert MACS_PER_THREAD == 0x800_0000_0000;
  }

  /** A share's end lies below worker x's range or at or past its end. */
  lemma EndOutsideShare(x: nat, y: nat)
    ensures !(PartitionStart(x) <= PartitionEnd(y) < PartitionEnd(x))
  {
    assert MACS_PER_THREAD == 0x800_0000_0000;
  }

  /** No worker evaluates any share's end value: the `++mac < ending_mac` test stops below it. */
  lemma {:induction false} EndsNeverEvaluated(suffixOf: SuffixOf, target: bv64, x: nat, y: nat)
    ensures PartitionEnd(y) !in WorkerSearch(suffixOf, target, x).evaluated
  {
    var o := WorkerSearch(suffixOf, target, x);
    assert MACS_PER_THREAD == 0x800_0000_0000;
    OrderedWithin(suffixOf, target, PartitionStart(x), PartitionEnd(x), true);
    OrderedStaysInRange(suffixOf, target, PartitionStart(x), PartitionEnd(x), true);
    PartitionEndNotLanding(y);
    EndOutsideShare(x, y);
    forall k | 0 <= k < |o.evaluated|
      ensures o.evaluated[k] != PartitionEnd(y)
    {
      assert PartitionStart(x) <= o.evaluated[k];
      assert o.evaluated[k] < PartitionEnd(x) || IsLanding(o.evaluated[k]);
    }
  }

  /**
   * Workers 0 to 30 always report success and set the flag: their final
   * counter stays below 0xFFFFFFFFFFFF whether or not anything matched.
   */
  lemma {:induction false} EarlyWorkersReportSuccess(suffixOf: SuffixOf, target: bv64, x: nat)
    requires x < THREAD_COUNT - 1
    ensures OrderedReportsSuccess(WorkerSearch(suffixOf, target, x))
  {
    var start, end := PartitionStart(x), PartitionEnd(x);
    assert start < end && end <= PartitionEnd(30) by {
      EarlyPartitionEnds(x);
    }
    assert WorkerSearch(suffixOf, target, x).FinalMac() <= HIGHEST_LANDING + 1 || WorkerSearch(suffixOf, target, x).FinalMac() <= end by {
      OrderedStaysInRange(suffixOf, target, start, end, true);
    }
  }

  /** The shares of workers 0 to 30 end no later than worker 30's. */
  lemma EarlyPartitionEnds(x: nat)
    requires x < THREAD_COUNT - 1
    ensures PartitionStart(x) < PartitionEnd(x) <= PartitionEnd(30)
  {
    assert MACS_PER_THREAD == 0x800_0000_0000;
  }

  /**
   * Worker 31 reports success exactly when its last suffix matched at a
   * counter below 0xFFFFFFFFFFFE: a match on the share's last counter is
   * reported as failure, because the counter then reaches the end.
   */
  lemma LastWorkerReportsIff(suffixOf: SuffixOf, target: bv64)
    ensures OrderedReportsSuccess(WorkerSearch(suffixOf, target, THREAD_COUNT - 1))
            <==> WorkerSearch(suffixOf, target, THREAD_COUNT - 1).lastSuffix == target
                 && WorkerSearch(suffixOf, target, THREAD_COUNT - 1).lastMac < EXHAUSTED_MAC - 1
  {
    assert PartitionEnd(THREAD_COUNT - 1) == EXHAUSTED_MAC;
  }

  /** The only counter outside every block from the PPP start up to the PPP landing is the landing. */
  lemma PppTailIsLanding(v: nat)
    requires PPP_START <= v <= HIGHEST_LANDING && !InReservedBlock(v)
    ensures v == HIGHEST_LANDING
  {
  }

  /**
   * An exit-on-match search over a range that ends inside the PPP block,
   * started outside every block's interior and ending without a match,
   * runs on to the PPP landing and evaluates it last.
   */
  lemma {:induction false} OvershootsToPppLanding(suffixOf: SuffixOf, target: bv64, start: nat, end: nat)
    requires start < end && !InBlockInterior(start)
    requires PPP_START < end < HIGHEST_LANDING
    requires OrderedFrom(suffixOf, target, start, end, true).lastSuffix != target
    ensures OrderedFrom(suffixOf, target, start, end, true).lastMac == HIGHEST_LANDING
    ensures HIGHEST_LANDING in OrderedFrom(suffixOf, target, start, end, true).evaluated
  {
    var o := OrderedFrom(suffixOf, target, start, end, true);
    OrderedStaysInRange(suffixOf, target, start, end, true);
    OrderedEvaluatesExactly(suffixOf, target, start, end, true);
    OrderedLast(suffixOf, target, start, end, true);
    assert o.evaluated[|o.evaluated| - 1] == o.lastMac;
    assert o.lastMac in o.evaluated;
    assert !InReservedBlock(o.lastMac);
    PppTailIsLanding(o.lastMac);
  }

  /**
   * Worker 25's share ends at 0xCFFFFFFFFFFF but holds the start of the PPP
   * block: when nothing matches, it jumps to 0xD00000000000, past its end,
   * and still evaluates that counter as its last.
   */
  lemma PppWorkerOvershoots(suffixOf: SuffixOf, target: bv64)
    requires WorkerSearch(suffixOf, target, 25).lastSuffix != target
    ensures WorkerSearch(suffixOf, target, 25).lastMac == HIGHEST_LANDING
    ensures HIGHEST_LANDING in WorkerSearch(suffixOf, target, 25).evaluated
    ensures HIGHEST_LANDING > PartitionEnd(25)
  {
    assert PartitionStart(25) == 0xC800_0000_0000 && PartitionEnd(25) == 0xCFFF_FFFF_FFFF;
    OvershootsToPppLanding(suffixOf, target, PartitionStart(25), PartitionEnd(25));
  }

  /** From the start of the IPv6 multicast block the first counter evaluated is 0x333400000000. */
  lemma Ipv6BlockStartLandsAfterBlock(suffixOf: SuffixOf, target: bv64, endingMac: nat, exitOnMatch: bool)
    ensures OrderedFrom(suffixOf, target, IPV6_MULTICAST_START, endingMac, exitOnMatch).evaluated[0] == 0x3334_0000_0000
  {
    SkipUnrolled(IPV6_MULTICAST_START);
  }

  // ---------------------------------------------------------------------------
  // Rounds and the driver.
  // ---------------------------------------------------------------------------

  /** Whether one of the first n random workers of a round reports success. */
  predicate AnyRandomWorkerSucceeds(kdf: Kdf, job: SearchJob, draws: RoundDraws, round: nat, n: nat) {
    n > 0 && (AnyRandomWorkerSucceeds(kdf, job, draws, round, n - 1) || RandomWorkerSucceeds(kdf, job, draws(round, n - 1)))
  }

  /** Whether one of the first n ordered workers of a round reports success. */
  predicate AnyOrderedWorkerSucceeds(kdf: Kdf, job: SearchJob, n: nat) {
    n > 0 && (AnyOrderedWorkerSucceeds(kdf, job, n - 1)
              || OrderedReportsSuccess(WorkerSearch(JobSuffixes(kdf, job), job.legitimateSuffix, n - 1)))
  }

  /** A round of ordered workers always sets the flag: worker 0 reports success whatever it finds. */
  lemma {:induction false} OrderedRoundAlwaysSucceeds(kdf: Kdf, job: SearchJob, n: nat)
    requires 1 <= n
    ensures AnyOrderedWorkerSucceeds(kdf, job, n)
  {
    if n == 1 {
      EarlyWorkersReportSuccess(JobSuffixes(kdf, job), job.legitimateSuffix, 0);
    } else {
      OrderedRoundAlwaysSucceeds(kdf, job, n - 1);
    }
  }

  /** The random round: 32 workers with ids 1 to 32 and an empty range, all pointing at one flag. */
  method RandomRound(kdf: Kdf, job: SearchJob, draws: RoundDraws, round: nat, flag: MatchFlag)
    modifies flag
    ensures flag.value == (old(flag.value) || AnyRandomWorkerSucceeds(kdf, job, draws, round, THREAD_COUNT))
  {
    for x := 0 to THREAD_COUNT
      invariant flag.value == (old(flag.value) || AnyRandomWorkerSucceeds(kdf, job, draws, round, x))
    {
      var ctx := WorkerContext(x + 1, 0, 0, job, flag);
      var success, fakeMac := RandomWorker(kdf, ctx, draws(round, x));
    }
  }

  /** The ordered round: worker x gets ids x + 1 and the range from PartitionStart(x) to PartitionEnd(x). */
  method OrderedRound(kdf: Kdf, job: SearchJob, flag: MatchFlag)
    modifies flag
    ensures flag.value == (old(flag.value) || AnyOrderedWorkerSucceeds(kdf, job, THREAD_COUNT))
    ensures flag.value
  {
    for x := 0 to THREAD_COUNT
      invariant flag.value == (old(flag.value) || AnyOrderedWorkerSucceeds(kdf, job, x))
    {
      PartitionBounds(x);
      var ctx := WorkerContext(x + 1, PartitionStart(x), PartitionEnd(x), job, flag);
      var success, fakeMac := OrderedWorker(kdf, ctx);
    }
    OrderedRoundAlwaysSucceeds(kdf, job, THREAD_COUNT);
  }

  /** Whether a random worker of the round for this iteration count, using the round's draws, reports success. */
  predicate RoundRandomSucceeds(kdf: Kdf, algorithm: int, iterations: bv16, draws: RoundDraws, round: nat) {
    AnyRandomWorkerSucceeds(kdf, StableJob(kdf, iterations, algorithm), draws, round, THREAD_COUNT)
  }

  /** Whether a random worker of any of the first n rounds reported success: the random flag after round n - 1. */
  predicate RandomMatchBy(kdf: Kdf, algorithm: int, fixedIters: seq<bv16>, draws: RoundDraws, n: nat)
    requires n <= |fixedIters|
  {
    n > 0 && (RandomMatchBy(kdf, algorithm, fixedIters, draws, n - 1) || RoundRandomSucceeds(kdf, algorithm, fixedIters[n - 1], draws, n - 1))
  }

  /** The random flag is sticky: once a round sets it, every later round's banner reports a match. */
  lemma {:induction false} RandomMatchSticky(kdf: Kdf, algorithm: int, fixedIters: seq<bv16>, draws: RoundDraws, m: nat, n: nat)
    requires m <= n <= |fixedIters|
    requires RandomMatchBy(kdf, algorithm, fixedIters, draws, m)
    ensures RandomMatchBy(kdf, algorithm, fixedIters, draws, n)
    decreases n - m
  {
    if m < n {
      RandomMatchSticky(kdf, algorithm, fixedIters, draws, m + 1, n);
    }
  }

  /** The random flag after round n - 1 is set exactly when a random worker of one of those rounds succeeded. */
  lemma {:induction false} RandomMatchByIff(kdf: Kdf, algorithm: int, fixedIters: seq<bv16>, draws: RoundDraws, n: nat)
    requires n <= |fixedIters|
    ensures RandomMatchBy(kdf, algorithm, fixedIters, draws, n)
            <==> exists j :: 0 <= j < n && RoundRandomSucceeds(kdf, algorithm, fixedIters[j], draws, j)
  {
    if n > 0 {
      RandomMatchByIff(kdf, algorithm, fixedIters, draws, n - 1);
      if RandomMatchBy(kdf, algorithm, fixedIters, draws, n) {
        if !RoundRandomSucceeds(kdf, algorithm, fixedIters[n - 1], draws, n - 1) {
          var j :| 0 <= j < n - 1 && RoundRandomSucceeds(kdf, algorithm, fixedIters[j], draws, j);
        }
      }
      if exists j :: 0 <= j < n && RoundRandomSucceeds(kdf, algorithm, fixedIters[j], draws, j) {
        var j :| 0 <= j < n && RoundRandomSucceeds(kdf, algorithm, fixedIters[j], draws, j);
        if j < n - 1 {
          assert RandomMatchBy(kdf, algorithm, fixedIters, draws, n - 1);
        }
      }
    }
  }

  /**
   * One pass of the round loop of _find_collisions: compute and print the
   * legitimate address for the iteration count, then run the random round
   * and the ordered round against its suffix.
   */
  method CollisionRound(kdf: Kdf, algorithm: int, iterations: bv16, draws: RoundDraws, round: nat,
                        isRandomMatch: MatchFlag, isOrderedMatch: MatchFlag)
    returns (legitimateSuffix: bv64, text: string)
    requires isRandomMatch != isOrderedMatch
    modifies isRandomMatch, isOrderedMatch
    ensures legitimateSuffix == LegitimateSuffix(kdf, iterations, algorithm)
    ensures text == LinkLocalText(legitimateSuffix)
    ensures isRandomMatch.value == (old(isRandomMatch.value) || RoundRandomSucceeds(kdf, algorithm, iterations, draws, round))
    ensures isOrderedMatch.value
  {
    var legitimateHash := ComputeAddressHashSuffix(kdf, STABLE_VOUCHER_SEED, STABLE_MAC_ADDRESS, iterations, algorithm);
    legitimateSuffix := BuildAddressSuffix(iterations, legitimateHash);
    text := PrintLinkLocalFromSuffix(legitimateSuffix);
    var job := SearchJob(STABLE_VOUCHER_SEED, legitimateSuffix, iterations, algorithm);
    assert job == StableJob(kdf, iterations, algorithm);
    RandomRound(kdf, job, draws, round, isRandomMatch);
    OrderedRound(kdf, job, isOrderedMatch);
  }

  /** What the driver shows after one round: the legitimate suffix and whether each banner is printed. */
  datatype RoundBanners = RoundBanners(legitimateSuffix: bv64, randomBanner: bool, orderedBanner: bool)

  /**
   * Round k showed the legitimate suffix of the k-th iteration count, the
   * random banner exactly when the random flag was set by then, and the
   * ordered banner.
   */
  ghost predicate RoundsShown(kdf: Kdf, algorithm: int, fixedIters: seq<bv16>, draws: RoundDraws, rounds: seq<RoundBanners>) {
    && |rounds| <= |fixedIters|
    && forall k :: 0 <= k < |rounds| ==>
         rounds[k] == RoundBanners(LegitimateSuffix(kdf, fixedIters[k], algorithm), RandomMatchBy(kdf, algorithm, fixedIters, draws, k + 1), true)
  }

  lemma RoundShown(kdf: Kdf, algorithm: int, fixedIters: seq<bv16>, draws: RoundDraws, rounds: seq<RoundBanners>, next: RoundBanners)
    requires RoundsShown(kdf, algorithm, fixedIters, draws, rounds) && |rounds| < |fixedIters|
    requires next.legitimateSuffix == LegitimateSuffix(kdf, fixedIters[|rounds|], algorithm)
    requires next.randomBanner == (RandomMatchBy(kdf, algorithm, fixedIters, draws, |rounds|)
                                   || RoundRandomSucceeds(kdf, algorithm, fixedIters[|rounds|], draws, |rounds|))
    requires next.orderedBanner
    ensures RoundsShown(kdf, algorithm, fixedIters, draws, rounds + [next])
  {
    var n := |rounds|;
    forall k | 0 <= k < n + 1
      ensures (rounds + [next])[k]
              == RoundBanners(LegitimateSuffix(kdf, fixedIters[k], algorithm), RandomMatchBy(kdf, algorithm, fixedIters, draws, k + 1), true)
    {
      if k < n {
        assert (rounds + [next])[k] == rounds[k];
      }
    }
  }

  /**
   * _find_collisions: for each iteration count of the table, compute and
   * print the legitimate address, run the random round and the ordered
   * round, and report after each whether its flag is set. Both flags are
   * created once, before the first round, and never cleared.
   */
  method FindCollisions(kdf: Kdf, algorithm: int, fixedIters: seq<bv16>, draws: RoundDraws)
    returns (rounds: seq<RoundBanners>)
    ensures |rounds| == |fixedIters|
    ensures RoundsShown(kdf, algorithm, fixedIters, draws, rounds)
  {
    var isRandomMatch := new MatchFlag();
    var isOrderedMatch := new MatchFlag();
    rounds := [];
    for i := 0 to |fixedIters|
      invariant |rounds| == i
      invariant RoundsShown(kdf, algorithm, fixedIters, draws, rounds)
      invariant isRandomMatch.value == RandomMatchBy(kdf, algorithm, fixedIters, draws, i)
    {
      var legitimateSuffix, text := CollisionRound(kdf, algorithm, fixedIters[i], draws, i, isRandomMatch, isOrderedMatch);
      var next := RoundBanners(legitimateSuffix, isRandomMatch.value, isOrderedMatch.value);
      RoundShown(kdf, algorithm, fixedIters, draws, rounds, next);
      rounds := rounds + [next];
    }
  }
}
