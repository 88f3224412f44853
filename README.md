# cpp-fiddles in Dafny

This project models the sequential core of the cpp-fiddles experiments and
proves what that core computes. It covers four parts.

- **Voucher-Based Address (VBA) suffix codec** (`vba_codec.dfy`, `address_text.dfy`).
  - The 17-byte salt and the cost parameters of each key-derivation function (KDF).
  - The sentinel returned for an unknown algorithm.
  - The little-endian read of the first eight output bytes.
  - The suffix that packs the complemented iteration count above 48 bits of hash.
  - Its `fe80::` text form.
  - The KDF primitives are one function-typed parameter `kdf`.
- **Collision searches** of both drafts (`mac_counter.dfy`, `search_loops.dfy`,
  `collision_workers.dfy`, `single_thread_search.dfy`).
  - MACs are rolled from 64-bit counters, least significant byte first.
  - The random loop runs with a countdown.
  - The ordered loop jumps over four reserved blocks.
  - The 48-bit MAC space is split into 32 shares.
  - Each round has a shared "match found" flag.
  - Random draws are an oracle parameter. The 32 workers of a round run one after another.
- **Rectangle extent merger** (`rectangle_extents.dfy`).
  - Rectangles are objects held by reference. They are sorted by origin x and swept left to right.
  - Each run of colliding rectangles is merged in place into the run's first rectangle.
  - Passes repeat until the extent count stops changing.
  - The geometry is stated on values (`Box`), and the methods are proved to reach the values those functions give.
- **TinyMT64 integer path** (`tinymt64.dfy`).
  - The state transition and the tempering act on `bv64` words.
  - The generator object updates its words in place.

`wrappers.dfy` holds the `Option` and `Result` types.

## Model

| member | source | states |
|---|---|---|
| VbaCodec.AlgorithmOfTag | vba-collision-tests/vba.h:20-25 | A raw tag names PBKDF2, Argon2 or scrypt exactly when it is 1, 2 or 3. Any other value names no algorithm. |
| VbaCodec.Salt | vba-tests/vba.c:19-21 | The salt is 17 bytes. Bytes 0-5 are the MAC, bytes 6-8 are "vba" and bytes 9-16 are fe80:: followed by six zero bytes. |
| VbaCodec.FillSalt | vba-tests/vba.c:19-21 | The salt array, filled from its template and then overwritten with the MAC, equals `Salt(mac)`. |
| VbaCodec.CostFor | vba-tests/vba.c:24-58 | PBKDF2 gets iterations × 256. Argon2 gets the iterations with 102400 KiB and parallelism 1. scrypt gets N=65536, r=16, p=1. |
| VbaCodec.LoadLittleEndian64 | vba-tests/vba.c:66-67 | Byte k of the buffer lands in bits 8k to 8k+7 of the word. |
| VbaCodec.HashPrefix | vba-tests/vba.c:4-68 | Defined as the sentinel 0xFFFFFFFFFFFFFFFF for an unknown algorithm tag. Otherwise it is the little-endian first eight bytes of the KDF output for the voucher seed, `Salt(mac)` and `CostFor(algorithm, iterations)`. |
| VbaCodec.ComputeAddressHashSuffix | vba-tests/vba.c:4-68 | Returns the KDF output prefix for the salt and cost of a known algorithm. An unknown algorithm returns 0xFFFFFFFFFFFFFFFF. |
| VbaCodec.PromotedComplement | vba-tests/vba.c:72 | After int promotion and sign extension, `~iterations` is the 64-bit complement of the count. Its top 48 bits are all ones. |
| VbaCodec.BuildAddressSuffix | vba-tests/vba.c:70-73 | Bits 63..48 of the suffix are `~iterations`. The low 48 bits are the hash's low 48 bits. |
| VbaCodec.RecoverIterations | vba-tests/vba.c:72 | The recovered count is the complement of the suffix's top 16 bits. |
| VbaCodec.SuffixRoundTrip | vba-tests/vba.c:70-73 | Recovering the count from a built suffix gives the count back, and the hash's low 48 bits survive. |
| VbaCodec.SuffixRebuild | vba-tests/vba.c:70-73 | Every 64-bit word is the suffix built from its own recovered count and low bits. |
| VbaCodec.SuffixIgnoresHighHashBits | vba-tests/vba.c:72 | Hashes that agree on their low 48 bits give the same suffix. |
| VbaCodec.SuffixDecreasesWithIterations | vba-tests/vba.c:72 | For a fixed hash, a larger iteration count gives a strictly smaller suffix. |
| VbaCodec.Pbkdf2CostFitsInt | vba-tests/vba.c:29 | The scaled PBKDF2 count is at most 16,776,960, which fits a C int. |
| VbaCodec.ScryptIgnoresIterations | vba-tests/vba.c:47-58 | The scrypt result is the same for every iteration count. |
| VbaCodec.UnknownAlgorithmIgnoresKdf | vba-tests/vba.c:61-63 | An unknown algorithm yields the sentinel whatever the primitives compute. |
| VbaCodec.SuffixUsesFirstSixDigestBytes | vba-tests/vba.c:66-72 | Primitives that agree on their first six output bytes give the same suffix. |
| VbaCodec.Iterations0x0100GivesFEFF | vba-tests/vba.c:72 | Iteration count 0x0100 puts 0xFEFF in bits 63..48. |
| VbaCodec.VerifySound | vba-collision-tests/vba.h:39-42 | A suffix built from a seed, a MAC, a count and an algorithm passes the model-level verification composed of the members above. |
| AddressText.HexValue | vba-tests/vba.c:79-80 | A lower-case hex digit maps to the nibble that `%x` prints as that digit. |
| AddressText.HexDigitRoundTrip | vba-tests/vba.c:79-80 | Printing a nibble and reading the digit back gives the nibble. |
| AddressText.Hex2 | vba-tests/vba.c:79-80 | `%02x` prints two hex digits: the high nibble first, then the low nibble. |
| AddressText.Group | vba-tests/vba.c:78-81 | Every group is four hex digits. |
| AddressText.EmittedPair | vba-tests/vba.c:78-81 | Two loop rounds print one group, followed by a colon unless it is the fourth group. |
| AddressText.EmittedGroups | vba-tests/vba.c:77-81 | "fe80::" plus the eight rounds' output is the four groups joined by colons. |
| AddressText.PrintLinkLocalFromSuffix | vba-tests/vba.c:75-82 | The counted loop emits exactly the presentation text of the suffix. |
| AddressText.Pack | vba-tests/vba.c:80 | Byte i of the packed word, counted from the most significant, is the i-th byte given. |
| AddressText.PackBytes | vba-tests/vba.c:80 | A word is determined by its eight bytes. |
| AddressText.HexPairRoundTrip | vba-tests/vba.c:79-80 | Reading back the two digits printed for a byte gives the byte. |
| AddressText.ByteOfHexRoundTrip | vba-tests/vba.c:79-80 | Printing the byte that two digits spell gives those digits back. |
| AddressText.GroupRoundTrip | vba-tests/vba.c:78-81 | A group reads back as the two suffix bytes it was printed from. |
| AddressText.GroupOnto | vba-tests/vba.c:78-81 | A group of digits that spells the right two bytes is the group printed for them. |
| AddressText.JoinedText | vba-tests/vba.c:77-81 | The prefix and four groups joined by colons have the address shape, with each group in its place. |
| AddressText.SplitText | vba-tests/vba.c:77-81 | A text of the address shape is its prefix and four groups joined by colons. |
| AddressText.LinkLocalTextShape | vba-tests/vba.c:77-81 | Every rendered address is 25 characters of the `fe80::hhhh:hhhh:hhhh:hhhh` shape. |
| AddressText.LinkLocalText | vba-tests/vba.c:75-82 | Defined as "fe80::" followed by the four two-byte groups of the suffix, most significant first, joined by colons. `PrintLinkLocalFromSuffix` is proved to emit it, and the shape and round-trip lemmas describe it. |
| AddressText.LinkLocalTextRoundTrip | vba-tests/vba.c:75-82 | Reading a rendered address back gives the suffix, so rendering loses nothing. |
| AddressText.LinkLocalTextOnto | vba-tests/vba.c:75-82 | Every text of the address shape is the rendering of the suffix it spells. |
| MacCounter.ToByte | vba-collision-tests/collisions.cpp:23-28 | The byte has the given numeric value. |
| MacCounter.ByteRoundTrip | vba-collision-tests/collisions.cpp:23-28 | Every byte is the byte of its own value. |
| MacCounter.Pow256Bounds | vba-collision-tests/collisions.cpp:23-28 | 256^6 is the size of the MAC space and 256^8 is UINT64_MAX + 1. |
| MacCounter.LeBytes | vba-collision-tests/collisions.cpp:23-28 | The byte list has exactly n entries. |
| MacCounter.LeValue | vba-collision-tests/collisions.cpp:23-28 | n little-endian bytes spell a value below 256^n. |
| MacCounter.LeRoundTrip | vba-collision-tests/collisions.cpp:23-28 | Reading back n bytes of v gives v modulo 256^n. |
| MacCounter.LeBytesOfValue | vba-collision-tests/collisions.cpp:23-28 | Writing out the value of a byte list gives the list back. |
| MacCounter.MacValue | vba-collision-tests/collisions.cpp:23-28 | A MAC spells a counter below 2^48. |
| MacCounter.MacBytes | vba-collision-tests/collisions.cpp:23-28 | Defined as the six least significant bytes of the counter, least significant first. Its injectivity, surjectivity and dropped high bits are the lemmas below. |
| MacCounter.MacBytesDropsHighBits | vba-collision-tests/collisions.cpp:23-28 | Only the low 48 bits of the counter reach the MAC. |
| MacCounter.MacBytesInjective | vba-collision-tests/collisions.cpp:23-28 | Counters below 2^48 can be read back from their MAC. |
| MacCounter.MacBytesOnto | vba-collision-tests/collisions.cpp:23-28 | Every MAC is rolled by the counter it spells. |
| MacCounter.LeBytesPrefix | vba-collision-tests/collisions.cpp:23-28 | The first m bytes written for v are the bytes written when only m are asked for. So the six MAC bytes are the first six of the word's eight memory bytes. |
| MacCounter.MemoryImage | vba-collision-tests/collisions.cpp:23-28 | A uint64_t's eight bytes in little-endian memory spell its value. |
| MacCounter.RollMacAddress | vba-collision-tests/collisions.cpp:18-29 | UINT64_MAX selects the random draw, and any other counter is used as given. The buffer then holds the counter's six low bytes, least significant first. |
| MacCounter.SkipBlocks | vba-collision-tests/collisions.cpp:112-122 | Running the block tests never moves the counter down. |
| MacCounter.Skip | vba-collision-tests/collisions.cpp:112-122 | The four tests never move the counter down. |
| MacCounter.SkipUnrolled | vba-collision-tests/collisions.cpp:112-122 | 0x01005E000000 jumps by 2^24, 0x005E00000000 by 2^32, 0xCF0000000000 by 2^40 and 0x333300000000 by 2^32. Every other counter stays. |
| MacCounter.SkipReserved | vba-tests/collisions.cpp:125-135 | The in-place tests compute `Skip`, and the result is the counter itself or a landing. |
| MacCounter.SkipCases | vba-collision-tests/collisions.cpp:112-122 | A block start jumps past its whole block to a counter outside every block, and no more than one jump fires. |
| MacCounter.SkipLandsOutside | vba-collision-tests/collisions.cpp:112-122 | A counter that is not inside a block lands outside every block. |
| MacCounter.SkippedAreReserved | vba-collision-tests/collisions.cpp:112-122 | Every counter a jump passes over lies in a reserved block. |
| MacCounter.IPv4MulticastStartRollsReversedOui | vba-collision-tests/collisions.cpp:112-113 | Counter 0x01005E000000 rolls MAC 00:00:00:5E:00:01, whose OUI is not 01-00-5E. |
| SearchLoops.CandidateSuffix | vba-collision-tests/collisions.cpp:124-132 | Every candidate suffix carries the job's complemented iteration count in bits 63..48. |
| SearchLoops.JobSuffixes | vba-collision-tests/collisions.cpp:124-132 | The job's suffix map gives the candidate suffix of every counter. |
| SearchLoops.EvaluateCandidate | vba-collision-tests/collisions.cpp:73-81 | The loop body rolls the counter (or the draw) into the buffer and returns the suffix of that MAC. |
| SearchLoops.LegitimateSuffix | vba-collision-tests/collisions.cpp:179-186 | The legitimate suffix carries the round's iteration count. |
| SearchLoops.RandomFrom | vba-collision-tests/collisions.cpp:72-82 | The loop makes between 1 and `loopBreaker` attempts. The last suffix is the suffix of the last draw. The loop stops when the countdown reaches zero or the suffix matches. |
| SearchLoops.RandomSuccessIff | vba-collision-tests/collisions.cpp:82-94 | Success is reported exactly when one of the first budget − 1 draws collides. The reported MAC is the first colliding one. |
| SearchLoops.LastAttemptDiscarded | vba-collision-tests/collisions.cpp:82-88 | A collision found only on the last attempt is reported as failure. |
| SearchLoops.RandomSearch | vba-collision-tests/collisions.cpp:72-82 | The do-while loop returns the countdown `RandomFrom` predicts, the MAC of the last draw and that MAC's suffix. |
| SearchLoops.OrderedFrom | vba-collision-tests/collisions.cpp:111-133 | At least one counter is evaluated, and the last one is at or above the start. The loop ends only at the end or, with exit on match, on a match. |
| SearchLoops.OrderedGoesOn | vba-collision-tests/collisions.cpp:111-133 | A round after which the loop goes on evaluates `Skip(mac)` and then the rest. |
| SearchLoops.OrderedStops | vba-collision-tests/collisions.cpp:133 | A round after which the loop stops evaluates only `Skip(mac)`. |
| SearchLoops.OrderedLast | vba-collision-tests/collisions.cpp:111-133 | The last evaluated counter is the one the outcome reports. |
| SearchLoops.OrderedWithin | vba-collision-tests/collisions.cpp:111-133 | Every evaluated counter lies between the start and the last counter. |
| SearchLoops.OrderedIncreasing | vba-collision-tests/collisions.cpp:111-133 | The counters are evaluated in strictly increasing order, none twice. |
| SearchLoops.OrderedEvaluatesExactly | vba-tests/collisions.cpp:124-148 | Started outside a block interior, the search evaluates exactly the unreserved counters from the start to its final counter. |
| SearchLoops.OrderedStopsAtFirstMatch | vba-collision-tests/collisions.cpp:133 | With exit on match, no counter before the last evaluated one collides. |
| SearchLoops.OrderedStaysInRange | vba-collision-tests/collisions.cpp:111-133 | Every evaluated counter is below the end or is a jump landing. The final counter is at most max(end, highest landing + 1). |
| SearchLoops.OrderedSearch | vba-collision-tests/collisions.cpp:111-133 | The do-while loop returns the final counter `OrderedFrom` predicts, the MAC of the last counter evaluated and that MAC's suffix. |
| CollisionWorkers.MatchFlag.constructor | vba-collision-tests/collisions.cpp:171-172 | A new flag is false. |
| CollisionWorkers.RandomWorker | vba-collision-tests/collisions.cpp:62-98 | Runs the random loop with a 2^24 countdown. It reports the countdown verdict and the last MAC, and ORs success into the shared flag. |
| CollisionWorkers.OrderedWorker | vba-collision-tests/collisions.cpp:100-149 | Runs the ordered loop with exit on match. It reports success unless the final counter is ≥ 0xFFFFFFFFFFFF, and ORs success into the shared flag. |
| CollisionWorkers.PartitionBounds | vba-collision-tests/collisions.cpp:225-226 | Every share starts below its end, and the end lies inside the MAC space. |
| CollisionWorkers.PartitionStart | vba-collision-tests/collisions.cpp:225 | Defined as `x * MACS_PER_THREAD`, where worker x starts. |
| CollisionWorkers.PartitionEnd | vba-collision-tests/collisions.cpp:226 | Defined as `(x + 1) * MACS_PER_THREAD - 1`, the end worker x stops before. |
| CollisionWorkers.PartitionCovers | vba-collision-tests/collisions.cpp:225-226 | Each counter lies in exactly one worker's share. |
| CollisionWorkers.PartitionsDisjoint | vba-collision-tests/collisions.cpp:225-226 | A later worker starts after an earlier worker's end. |
| CollisionWorkers.PartitionEndNotLanding | vba-collision-tests/collisions.cpp:225-226 | No share's end is a jump landing. |
| CollisionWorkers.EndOutsideShare | vba-collision-tests/collisions.cpp:225-226 | No share's end lies in another worker's tested range. |
| CollisionWorkers.EndsNeverEvaluated | vba-collision-tests/collisions.cpp:133 | No worker evaluates any share's end value. |
| CollisionWorkers.EarlyWorkersReportSuccess | vba-collision-tests/collisions.cpp:138-141 | Workers 0 to 30 always report success, whether or not anything matched. |
| CollisionWorkers.LastWorkerReportsIff | vba-collision-tests/collisions.cpp:133-141 | Worker 31 reports success exactly when its last suffix matched below 0xFFFFFFFFFFFE. |
| CollisionWorkers.PppTailIsLanding | vba-collision-tests/collisions.cpp:118-119 | From the PPP start up to its landing, the only unreserved counter is the landing. |
| CollisionWorkers.OvershootsToPppLanding | vba-collision-tests/collisions.cpp:118-133 | A range ending inside the PPP block with no match runs on to the landing and evaluates it last. |
| CollisionWorkers.PppWorkerOvershoots | vba-collision-tests/collisions.cpp:225-226 | Without a match, worker 25 evaluates 0xD00000000000, past its end. |
| CollisionWorkers.Ipv6BlockStartLandsAfterBlock | vba-collision-tests/collisions.cpp:121-122 | From 0x333300000000 the first counter evaluated is 0x333400000000. |
| CollisionWorkers.OrderedRoundAlwaysSucceeds | vba-collision-tests/collisions.cpp:138-141 | Every ordered round reports a success. |
| CollisionWorkers.RandomRound | vba-collision-tests/collisions.cpp:193-213 | After the round, the flag is its old value OR the success of some random worker. |
| CollisionWorkers.OrderedRound | vba-collision-tests/collisions.cpp:221-241 | After the round, the flag is its old value OR the success of some ordered worker, and it is set. |
| CollisionWorkers.RandomMatchSticky | vba-collision-tests/collisions.cpp:215 | Once a round sets the random flag, every later round reports a match. |
| CollisionWorkers.RandomMatchByIff | vba-collision-tests/collisions.cpp:171-215 | The random flag after round n − 1 is set exactly when a random worker of one of those rounds succeeded. |
| CollisionWorkers.CollisionRound | vba-collision-tests/collisions.cpp:175-244 | One round computes the legitimate suffix and its text, updates the random flag by OR, and sets the ordered flag. |
| CollisionWorkers.FindCollisions | vba-collision-tests/collisions.cpp:168-248 | Each round shows the legitimate suffix of its table entry, the random banner exactly when the flag is set by then, and the ordered banner. |
| SingleThreadSearch.Attempts | vba-tests/collisions.cpp:94-107 | A countdown starting at n allows n attempts. A countdown starting at 0 allows 2^64 attempts. |
| SingleThreadSearch.OrderedAlwaysExhausts | vba-tests/collisions.cpp:148-153 | The ordered loop always runs to 0xFFFFFFFFFFFF, so its report is always failure. |
| SingleThreadSearch.OrderedCoversSpace | vba-tests/collisions.cpp:123-148 | The loop evaluates exactly the counters from 1 to 0xFFFFFFFFFFFE outside the reserved blocks, in increasing order. It never evaluates 0 or 0xFFFFFFFFFFFF. |
| SingleThreadSearch.ReportMeaning | vba-tests/collisions.cpp:107-158 | Ordered failure is always reported, with the MAC of 0xFFFFFFFFFFFE. Random success is reported exactly when a draw other than the last collides. |
| SingleThreadSearch.ExpectedReport | vba-tests/collisions.cpp:72-160 | Defined as the legitimate suffix, the random search's verdict and last MAC under the countdown, and the full ordered search's verdict and last MAC, for one iteration count. |
| SingleThreadSearch.CollisionPass | vba-tests/collisions.cpp:72-160 | One pass returns the expected report and the address text of the legitimate suffix. |
| SingleThreadSearch.FindCollisions | vba-tests/collisions.cpp:71-167 | One report per table entry, in table order, each the expected report of its pass. |
| RectangleExtents.CollidesIffSharedPixel | rectangle-collisions/main.cpp:121-127 | For rectangles of positive size, the test holds exactly when the right rectangle does not start left of the current one and they share a pixel. |
| RectangleExtents.Collides | rectangle-collisions/main.cpp:121-127 | Defined as: the right origin's x lies in the current half-open x range, and the half-open y ranges overlap. |
| RectangleExtents.Merge | rectangle-collisions/main.cpp:129-134 | Defined as the current x, the smaller y, and the larger right and bottom edges. |
| RectangleExtents.MergeIsBoundingBox | rectangle-collisions/main.cpp:129-134 | The merged extent contains the current one, and the right one when it starts at or after the current x. It is the smallest such box with the current x. |
| RectangleExtents.InsertByX | rectangle-collisions/main.cpp:172-173 | Insertion adds exactly one element. |
| RectangleExtents.InsertPermutes | rectangle-collisions/main.cpp:172-173 | Insertion keeps the boxes and adds the new one. |
| RectangleExtents.InsertKeepsSorted | rectangle-collisions/main.cpp:172-173 | Insertion into boxes sorted by x keeps them sorted. |
| RectangleExtents.SortByX | rectangle-collisions/main.cpp:172-173 | Sorting keeps the length. |
| RectangleExtents.SortPermutes | rectangle-collisions/main.cpp:172-173 | The sort's result is a permutation of its input. |
| RectangleExtents.SortSorts | rectangle-collisions/main.cpp:172-173 | The sort's result is in order of x. |
| RectangleExtents.InsertRightmost | rectangle-collisions/main.cpp:172-173 | A box at least as far right as all others is appended. |
| RectangleExtents.SortedStaysPut | rectangle-collisions/main.cpp:172-173 | Boxes already in order of x are left as they are. |
| RectangleExtents.Absorb | rectangle-collisions/main.cpp:184 | The inner loop merges at most the remaining boxes. |
| RectangleExtents.Sweep | rectangle-collisions/main.cpp:182-186 | The sweep returns no more extents than boxes, and at least one for a non-empty input. |
| RectangleExtents.AbsorbContains | rectangle-collisions/main.cpp:182-186 | A run's extent keeps its first box's x and contains every box merged into it. It does not collide with the box that ends the run. |
| RectangleExtents.SweepCovers | rectangle-collisions/main.cpp:182-186 | Every box is contained in some extent of the sweep. |
| RectangleExtents.SweepKeepsOrder | rectangle-collisions/main.cpp:182-186 | Sorted input gives extents in order of x, none left of the first box. |
| RectangleExtents.Extents | rectangle-collisions/main.cpp:144-199 | An empty input fails and nothing else does. A result has between 1 and \|input\| extents. |
| RectangleExtents.PassCovers | rectangle-collisions/main.cpp:172-186 | Every box is contained in some extent of one sort-and-sweep pass. |
| RectangleExtents.ExtentsCover | rectangle-collisions/main.cpp:144-199 | Every input rectangle lies within some returned extent. |
| RectangleExtents.ExtentsSorted | rectangle-collisions/main.cpp:144-199 | The returned extents of two or more inputs are in order of x. |
| RectangleExtents.SweepKeepsCount | rectangle-collisions/main.cpp:195-198 | A pass that keeps the count returns its input, and no two neighbours collide. |
| RectangleExtents.SweepNoMerge | rectangle-collisions/main.cpp:182-186 | When no two neighbours collide, the sweep returns its input. |
| RectangleExtents.ExtentsSettled | rectangle-collisions/main.cpp:195-198 | Called with its own count, the result has no two neighbouring extents that collide. |
| RectangleExtents.OverlapBehindNeighbourKept | rectangle-collisions/main.cpp:184 | Only neighbours are compared, so a rectangle inside another one, separated from it by a third rectangle, stays an extent of its own. |
| RectangleExtents.ThreeStayApart | rectangle-collisions/main.cpp:182-198 | Three boxes in order of x, with no two neighbours colliding, stay three extents. |
| RectangleExtents.BorderingRectanglesStayApart | rectangle-collisions/main.cpp:236-237 | Rectangles that only share an edge do not collide. |
| RectangleExtents.CornerRectanglesStayApart | rectangle-collisions/main.cpp:238-239 | Rectangles that only share a corner do not collide. |
| RectangleExtents.OnePixelOverlapsCollide | rectangle-collisions/main.cpp:240-243 | A one-pixel overlap at an edge or a corner is a collision. |
| RectangleExtents.ThreeInOrder | rectangle-collisions/main.cpp:172-173 | Three boxes already in order are not moved by the sort. |
| RectangleExtents.ThreeBecomeOne | rectangle-collisions/main.cpp:245-249 | Three boxes that collide in a chain become one extent. |
| RectangleExtents.TripleExtentCollision | rectangle-collisions/main.cpp:253-257 | The "third is an extent collision" case gives the single extent (0, 0) to (425, 150). |
| RectangleExtents.TripleMerges | rectangle-collisions/main.cpp:253-257 | That case merges step by step into (0, 0) to (425, 150). |
| RectangleExtents.ThirdCollidesWithNeither | rectangle-collisions/main.cpp:253-257 | Its third rectangle collides with neither of the first two alone. |
| RectangleExtents.Rect.constructor | rectangle-collisions/main.cpp:40-50 | A new Rect has the given origin and size. |
| RectangleExtents.Boxes | rectangle-collisions/main.cpp:40-50 | Entry i of the result is the geometry of rectangle i. |
| RectangleExtents.GetCollisionExtentsIfIntersection | rectangle-collisions/main.cpp:115-141 | Returns the collision test. On true the extent becomes the merge, and on false it is unchanged. The right rectangle is never changed. |
| RectangleExtents.InsertAt | rectangle-collisions/main.cpp:172-173 | Insertion puts the box after every box that does not start right of it. |
| RectangleExtents.InsertRect | rectangle-collisions/main.cpp:172-173 | One insertion step places the rectangle where `InsertByX` puts its geometry, and keeps the rectangles distinct. |
| RectangleExtents.SortByOriginX | rectangle-collisions/main.cpp:152-173 | The sorted copy has the geometry `SortByX` gives, and it is a permutation of the input references. |
| RectangleExtents.AbsorbRun | rectangle-collisions/main.cpp:183-184 | The inner loop merges into the run's first rectangle the extent `Absorb` gives, returns the position after the run, and leaves later rectangles alone. |
| RectangleExtents.TakeRun | rectangle-collisions/main.cpp:182-185 | One round of the do/while pushes the run's first rectangle, now the run's extent. It returns the position after the run, and rectangles outside the run keep their geometry. |
| RectangleExtents.SweepRuns | rectangle-collisions/main.cpp:182-186 | The extents have the geometry `Sweep` gives. Every x is kept, and the rectangles not pushed keep their geometry. |
| RectangleExtents.SweepPass | rectangle-collisions/main.cpp:176-186 | The extents pushed have the geometry `Sweep` gives. They are distinct and drawn from the sorted list. Every rectangle keeps its x, and every rectangle not pushed as an extent keeps its whole geometry. |
| RectangleExtents.GetRectangleExtents | rectangle-collisions/main.cpp:144-199 | Fails exactly on empty input. Otherwise the returned references have the geometry `Extents` gives and are distinct input rectangles. Every input rectangle's original area lies within a returned extent, and every input rectangle keeps its x. |
| RectangleExtents.RandomInt | rectangle-collisions/main.cpp:108-112 | For min ≤ max, the result lies in [min, max]. |
| RectangleExtents.RandomIntReachesRange | rectangle-collisions/main.cpp:108-112 | Every value of the range is the result of some draw. |
| TinyMT64.GetMexp | vba-tests/tinymt64.h:80-83 | The exponent is 127, the number of live state bits (63 + 64). |
| TinyMT64.NextStatus | vba-tests/tinymt64.h:95-110 | Defined as the step: mask bit 63 of status[0], mix the two words, then `AdvanceWords`. `Tinymt64.NextState` is proved to compute it, and `StepRecoversStatus1` and `TopBitIgnored` describe it. |
| TinyMT64.AdvanceWords | vba-tests/tinymt64.h:104-109 | status[0] becomes old status[1], xored with mat1 iff x is odd. status[1] keeps the low 32 bits of x, and its high half is x's, xored with mat2 iff x is odd. |
| TinyMT64.TopBitIgnored | vba-tests/tinymt64.h:98-99 | Bit 63 of status[0] has no effect on the next state. |
| TinyMT64.FeedIgnoresTopBit | vba-tests/tinymt64.h:98-99 | The word being mixed does not depend on bit 63 of status[0]. |
| TinyMT64.MaskDropsTopBit | vba-tests/tinymt64.h:98 | Masking removes bit 63. |
| TinyMT64.StepRecoversStatus1 | vba-tests/tinymt64.h:95-110 | The old status[1] can be recovered from the new state and mat1. |
| TinyMT64.AdvanceRecoversStatus1 | vba-tests/tinymt64.h:104-109 | The end of the step can be undone for status[1]. |
| TinyMT64.TemperingHoldsSum | vba-tests/tinymt64.h:123-125 | Xoring status[0] >> 8 back out of the tempering input gives the wrapped sum of the words. |
| TinyMT64.TemperWords | vba-tests/tinymt64.h:118-130 | Defined as tinymt64_temper on the words: the wrapped sum of the words xored with status[0] >> 8, then xored with tmat when odd. |
| TinyMT64.TmatIfOddInvolution | vba-tests/tinymt64.h:126-128 | With an even tmat, the conditional xor is its own inverse. |
| TinyMT64.TemperRecoversInput | vba-tests/tinymt64.h:118-130 | With an even tmat, the tempered output gives back the tempering input. |
| TinyMT64.OddTmatGivesEvenOutput | vba-tests/tinymt64.h:126-129 | With an odd tmat every output is even. |
| TinyMT64Generator.Tinymt64.constructor | vba-tests/tinymt64.h:61-66 | A generator holds the given words and parameters. |
| TinyMT64Generator.Tinymt64.NextState | vba-tests/tinymt64.h:95-110 | The new words are `NextStatus` of the old ones. mat1, mat2 and tmat are unchanged. |
| TinyMT64Generator.Tinymt64.Temper | vba-tests/tinymt64.h:118-130 | Reads the generator and changes nothing. It is `TemperWords` of the current words and tmat. |
| TinyMT64Generator.Tinymt64.GenerateUint64 | vba-tests/tinymt64.h:189-192 | Performs one state transition and returns the tempered output of the new state. The parameters are unchanged. |

## Left out

- Threads: the 32 workers of a round run one after another, so the flag after a round is the OR of their writes. The unsynchronised flag writes and thread handles are not modelled.
- KDF primitives (PBKDF2-HMAC-SHA-256, Argon2d, scrypt) are a function-typed parameter. Their output is only assumed to be 32 bytes.
- The Xoshiro generator behind `_roll_mac_address` and the `rand()` behind `randomInt` are oracle parameters: a draw function per worker or pass, and a `draw` argument.
- Timing, durations and console output. The only console output modelled is the address text. The rectangle driver's duration vector is not modelled either.
- `vba-tests/vba.h:21-23` gives ARGON2 and SCRYPT the same value 2, which would make two case labels of the switch collide. The model uses the 1/2/3 numbering of `vba-collision-tests/vba.h:20-25`.
- The four-argument `compute_address_hash_suffix` of vba-collision-tests is not shown. It is modelled as `vba-tests/vba.c` with an 8-byte seed and a 6-byte MAC.
- `verify_address_suffix` is declared without a body. `VbaCodec.VerifyAddressSuffix` is a model-level composition of the count recovery, the hash and the suffix, not the source's code.
- `vba-tests/collisions.cpp` lines 26, 29 and 79 use missing types and an undefined `legitimate_mac`. The model uses the stable seed and MAC arrays that both drivers declare.
- `vba-tests/collisions.cpp:94` writes `1 << 40`, a 32-bit int shift whose result the C standard leaves undefined. `SingleThreadSearch.FindCollisions` takes the countdown as a parameter, and `SingleThreadSearch.Attempts` states how many attempts any starting value allows.
- The `_fixed_iter` table of vba-collision-tests (15 entries) is not shown. `CollisionWorkers.FindCollisions` takes the table as a parameter.
- The `_thread_contexts` array is not modelled. Each worker receives its context as a value that refers to the shared flag object.
- `_roll_mac_address` reads the bytes of a uint64_t in memory order. The model fixes a little-endian host.
- RectangleExtents.GetRectangleExtents: the `Rect` fields are C `int`, but the model uses unbounded integers, so 32-bit overflow in `x + width` is not modelled.
- RectangleExtents.GetRectangleExtents: it requires the input rectangles to be distinct objects. The same pointer twice in the input (aliasing) is not modelled.
- RectangleExtents.GetRectangleExtents: a rectangle pushed as an extent in one pass and absorbed in a later pass keeps the geometry the earlier merge gave it. The contract states only that it keeps its x and that its original area lies within a returned extent.
- RectangleExtents.SortByOriginX: `std::sort` leaves the order of rectangles with equal x unspecified, and the model fixes it to input order.
- RectangleExtents.RandomInt: `RAND_MAX` is not modelled, so the draw is any natural number.
- The rectangle driver's random batches (`main`) and the printing test harness are left out. Its test cases are stated as lemmas.
- TinyMT64 floating-point outputs (`tinymt64_temper_conv*`, `tinymt64_generate_double*`) use floating point and type punning. `tinymt64_init` and `tinymt64_init_by_array` are declared without bodies. The `LINEARITY_CHECK` build variant of the tempering is not modelled.
- `cga-pow-tests`, the benchmarking and timing sources, and the `main` entry points are not part of this model.
