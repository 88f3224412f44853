/**
 * The single-threaded collision driver of vba-tests: for each of nine fixed
 * iteration counts it computes the legitimate node's address, runs one
 * random search with a countdown, then one ordered search over the whole
 * MAC space that never stops on a match.
 */
module SingleThreadSearch {
  import opened VbaCodec
  import opened MacCounter
  import opened SearchLoops
  import opened AddressText

  /** The table of iteration counts this driver walks, in order. */
  const FIXED_ITERS: seq<bv16> := [0x0001, 0x0010, 0x0100, 0x7000, 0x8000, 0x9000, 0xFE00, 0xFEE0, 0xFFFE]
  const FIXED_ITERS_COUNT := 9

  /** The ordered search starts at counter 1 and runs while `++mac` is below 0xFFFFFFFFFFFF. */
  const ORDERED_START := 1
  const ORDERED_END := 0xFFFF_FFFF_FFFF

  /**
   * The number of attempts a countdown starting at `loopBreaker` allows. A
   * countdown of zero is decremented to UINT64_MAX before it is tested, so
   * it allows 2^64 attempts.
   */
  function Attempts(loopBreaker: U64): (n: nat)
    ensures 1 <= n <= UINT64_MAX + 1
    ensures loopBreaker != 0 ==> n == loopBreaker
    ensures loopBreaker == 0 ==> n - 1 == UINT64_MAX
  {
    if loopBreaker == 0 then UINT64_MAX + 1 else loopBreaker
  }

  /** The ordered search of this driver against one target. */
  function FullOrderedSearch(suffixOf: SuffixOf, target: bv64): OrderedOutcome {
    OrderedFrom(suffixOf, target, ORDERED_START, ORDERED_END, false)
  }

  /**
   * Without an exit on match the ordered search always runs to the end: its
   * last counter is 0xFFFFFFFFFFFE, the counter after the loop is
   * 0xFFFFFFFFFFFF, and the report that follows is always failure, even when
   * a counter on the way matched.
   */
  lemma {:induction false} OrderedAlwaysExhausts(suffixOf: SuffixOf, target: bv64)
    ensures FullOrderedSearch(suffixOf, target).FinalMac() == ORDERED_END
    ensures FullOrderedSearch(suffixOf, target).lastMac == ORDERED_END - 1
  {
    OrderedStaysInRange(suffixOf, target, ORDERED_START, ORDERED_END, false);
  }

  /**
   * The ordered search evaluates every counter from 1 to 0xFFFFFFFFFFFE
   * outside the four reserved blocks, each once and in increasing order; it
   * never evaluates MAC 00-00-00-00-00-00 or FF-FF-FF-FF-FF-FF.
   */
  lemma {:induction false} OrderedCoversSpace(suffixOf: SuffixOf, target: bv64)
    ensures UnreservedBetween(FullOrderedSearch(suffixOf, target).evaluated, ORDERED_START, ORDERED_END)
    ensures StrictlyIncreasing(FullOrderedSearch(suffixOf, target).evaluated)
    ensures 0 !in FullOrderedSearch(suffixOf, target).evaluated
    ensures ORDERED_END !in FullOrderedSearch(suffixOf, target).evaluated
  {
    OrderedAlwaysExhausts(suffixOf, target);
    OrderedEvaluatesExactly(suffixOf, target, ORDERED_START, ORDERED_END, false);
    OrderedIncreasing(suffixOf, target, ORDERED_START, ORDERED_END, false);
  }

  /** What one pass of the driver's loop reports. */
  datatype RoundReport = RoundReport(
    legitimateSuffix: bv64,
    randomSuccess: bool, randomMac: Mac,
    orderedSuccess: bool, orderedMac: Mac)

  /** The report of the pass for one iteration count, given the random draws and the countdown. */
  function ExpectedReport(kdf: Kdf, algorithm: int, iterations: bv16, draws: Draws, loopBreaker: U64): RoundReport {
    var job := StableJob(kdf, iterations, algorithm);
    var random := RandomFrom(JobSuffixes(kdf, job), job.legitimateSuffix, draws, 0, Attempts(loopBreaker));
    var ordered := FullOrderedSearch(JobSuffixes(kdf, job), job.legitimateSuffix);
    RoundReport(job.legitimateSuffix,
                RandomReportsSuccess(random), MacBytes(random.lastDraw),
                ordered.FinalMac() < ORDERED_END, MacBytes(ordered.lastMac))
  }

  /**
   * Every pass reports the ordered search as failed with the MAC of counter
   * 0xFFFFFFFFFFFE, and reports the random search as successful exactly when
   * one of its draws but the last collides.
   */
  lemma {:induction false} ReportMeaning(kdf: Kdf, algorithm: int, iterations: bv16, draws: Draws, loopBreaker: U64)
    ensures !ExpectedReport(kdf, algorithm, iterations, draws, loopBreaker).orderedSuccess
    ensures ExpectedReport(kdf, algorithm, iterations, draws, loopBreaker).orderedMac == MacBytes(ORDERED_END - 1)
    ensures ExpectedReport(kdf, algorithm, iterations, draws, loopBreaker).randomSuccess
            <==> exists j :: 0 <= j < Attempts(loopBreaker) - 1
                   && CandidateSuffix(kdf, StableJob(kdf, iterations, algorithm), draws(j)) == LegitimateSuffix(kdf, iterations, algorithm)
    ensures RecoverIterations(ExpectedReport(kdf, algorithm, iterations, draws, loopBreaker).legitimateSuffix) == iterations
  {
    var job := StableJob(kdf, iterations, algorithm);
    OrderedAlwaysExhausts(JobSuffixes(kdf, job), job.legitimateSuffix);
    RandomSuccessIff(JobSuffixes(kdf, job), job.legitimateSuffix, draws, 0, Attempts(loopBreaker));
  }

  /**
   * One pass of _find_collisions: compute and print the legitimate address
   * of the stable node, then the random search with the given countdown and
   * the ordered search from counter 1, each followed by its report.
   */
  method CollisionPass(kdf: Kdf, algorithm: int, iterations: bv16, draws: Draws, loopBreaker: U64)
    returns (report: RoundReport, text: string)
    ensures report == ExpectedReport(kdf, algorithm, iterations, draws, loopBreaker)
    ensures text == LinkLocalText(report.legitimateSuffix)
  {
    var legitimateHash := ComputeAddressHashSuffix(kdf, STABLE_VOUCHER_SEED, STABLE_MAC_ADDRESS, iterations, algorithm);
    var legitimateSuffix := BuildAddressSuffix(iterations, legitimateHash);
    text := PrintLinkLocalFromSuffix(legitimateSuffix);
    var job := SearchJob(STABLE_VOUCHER_SEED, legitimateSuffix, iterations, algorithm);
    assert job == StableJob(kdf, iterations, algorithm);

    var remaining, randomMac, randomSuffix := RandomSearch(kdf, job, draws, Attempts(loopBreaker));
    var mac, orderedMac, orderedSuffix := OrderedSearch(kdf, job, ORDERED_START, ORDERED_END, false);
    report := RoundReport(legitimateSuffix, remaining != 0, randomMac, !(mac >= ORDERED_END), orderedMac);
  }

  /** Report k is the expected report of the pass for entry k of the table. */
  ghost predicate ReportsExpected(kdf: Kdf, algorithm: int, draws: nat -> Draws, loopBreaker: U64, reports: seq<RoundReport>) {
    && |reports| <= FIXED_ITERS_COUNT
    && forall k :: 0 <= k < |reports| ==> reports[k] == ExpectedReport(kdf, algorithm, FIXED_ITERS[k], draws(k), loopBreaker)
  }

  lemma ReportAdded(kdf: Kdf, algorithm: int, draws: nat -> Draws, loopBreaker: U64, reports: seq<RoundReport>, report: RoundReport)
    requires ReportsExpected(kdf, algorithm, draws, loopBreaker, reports) && |reports| < FIXED_ITERS_COUNT
    requires report == ExpectedReport(kdf, algorithm, FIXED_ITERS[|reports|], draws(|reports|), loopBreaker)
    ensures ReportsExpected(kdf, algorithm, draws, loopBreaker, reports + [report])
  {
    var n := |reports|;
    forall k | 0 <= k < n + 1
      ensures (reports + [report])[k] == ExpectedReport(kdf, algorithm, FIXED_ITERS[k], draws(k), loopBreaker)
    {
      if k < n {
        assert (reports + [report])[k] == reports[k];
      }
    }
  }

  /**
   * _find_collisions: one pass per entry of the table, in order, with pass
   * i using the random draws `draws(i)`.
   */
  method FindCollisions(kdf: Kdf, algorithm: int, draws: nat -> Draws, loopBreaker: U64)
    returns (reports: seq<RoundReport>)
    ensures |reports| == FIXED_ITERS_COUNT
    ensures ReportsExpected(kdf, algorithm, draws, loopBreaker, reports)
  {
    reports := [];
    for i := 0 to FIXED_ITERS_COUNT
      invariant |reports| == i
      invariant ReportsExpected(kdf, algorithm, draws, loopBreaker, reports)
    {
      var report, text := CollisionPass(kdf, algorithm, FIXED_ITERS[i], draws(i), loopBreaker);
      ReportAdded(kdf, algorithm, draws, loopBreaker, reports, report);
      reports := reports + [report];
    }
  }
}
