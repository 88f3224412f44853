/**
 * The Voucher-Based Address suffix codec and key-derivation gateway
 * (vba-tests/vba.c): the 17-byte salt, the per-algorithm cost parameters,
 * the sentinel for an unknown algorithm, the little-endian read of the first
 * eight output bytes, and the packing of the complemented iteration count
 * above the low 48 bits of that value.
 */
module VbaCodec {
  import opened Wrappers

  /** A MAC address: always six bytes. */
  type Mac = s: seq<bv8> | |s| == 6 witness [0, 0, 0, 0, 0, 0]

  /** The 32-byte output buffer every key-derivation primitive fills. */
  const DIGEST_LEN := 32
  type Digest = s: seq<bv8> | |s| == DIGEST_LEN witness seq(DIGEST_LEN, _ => 0)

  /** The three key-derivation functions, as one clean enumeration. */
  datatype Algorithm = Pbkdf2 | Argon2 | Scrypt

  /** The numeric values of the C enumeration `VbaAlgorithm`. */
  const PBKDF2_TAG := 1
  const ARGON2_TAG := 2
  const SCRYPT_TAG := 3

  /** Cost parameters handed to the primitive, one shape per algorithm. */
  datatype Cost =
    | Pbkdf2Cost(iterations: nat)                              // HMAC-SHA-256 iterations
    | Argon2Cost(timeCost: nat, memoryKiB: nat, parallelism: nat)
    | ScryptCost(n: nat, r: nat, p: nat)

  /**
   * The key-derivation primitives (PKCS5_PBKDF2_HMAC, argon2d_hash_raw,
   * crypto_scrypt) as one uninterpreted function of the algorithm, the secret
   * (the voucher seed), the salt and the cost parameters.
   */
  type Kdf = (Algorithm, seq<bv8>, seq<bv8>, Cost) -> Digest

  const ITERATIONS_FACTOR := 256
  const ARGON2_MEMORY_KIB := 102400
  const ARGON2_PARALLELISM := 1
  const SCRYPT_N := 65536
  const SCRYPT_R := 16
  const SCRYPT_P := 1
  const INT32_MAX := 0x7FFF_FFFF

  /** What compute_address_hash_suffix returns for an algorithm it does not know: `(uint64_t)-1`. */
  const UNKNOWN_ALGORITHM_SENTINEL: bv64 := 0xFFFF_FFFF_FFFF_FFFF

  const SALT_LEN := 17
  /** The ASCII bytes of "vba", the domain tag after the MAC. */
  const DOMAIN_TAG: seq<bv8> := [0x76, 0x62, 0x61]
  /** The 64-bit subnet prefix fe80:: that ends the salt. */
  const SUBNET_PREFIX: seq<bv8> := [0xFE, 0x80, 0x00, 0x00, 0x00, 0x00, 0x00, 0x00]
  /** The initialiser of the salt array before the MAC is copied over its first six bytes. */
  const SALT_TEMPLATE: seq<bv8> := [0, 0, 0, 0, 0, 0] + DOMAIN_TAG + SUBNET_PREFIX

  const LOW_48_MASK: bv64 := 0x0000_FFFF_FFFF_FFFF

  /** The algorithm a raw enumeration value names, if any. */
  function AlgorithmOfTag(tag: int): (a: Option<Algorithm>)
    ensures a.Some? <==> tag == PBKDF2_TAG || tag == ARGON2_TAG || tag == SCRYPT_TAG
    ensures a == Some(Pbkdf2) <==> tag == PBKDF2_TAG
    ensures a == Some(Argon2) <==> tag == ARGON2_TAG
    ensures a == Some(Scrypt) <==> tag == SCRYPT_TAG
  {
    if tag == PBKDF2_TAG then Some(Pbkdf2)
    else if tag == ARGON2_TAG then Some(Argon2)
    else if tag == SCRYPT_TAG then Some(Scrypt)
    else None
  }

  /** The salt: the MAC, then "vba", then the subnet prefix fe80::/64. */
  function Salt(mac: Mac): (salt: seq<bv8>)
    ensures |salt| == SALT_LEN
    ensures salt[..6] == mac
    ensures salt[6..9] == DOMAIN_TAG && salt[9..] == SUBNET_PREFIX
  {
    mac + SALT_TEMPLATE[6..]
  }

  /**
   * The cost parameters each algorithm receives for an iteration count:
   * PBKDF2 scales it by ITERATIONS_FACTOR, Argon2 uses it as time cost with
   * fixed memory and parallelism, scrypt ignores it.
   */
  function CostFor(algorithm: Algorithm, iterations: bv16): (cost: Cost)
    ensures algorithm == Pbkdf2 ==> cost == Pbkdf2Cost(iterations as int * ITERATIONS_FACTOR)
    ensures algorithm == Argon2 ==> cost == Argon2Cost(iterations as int, ARGON2_MEMORY_KIB, ARGON2_PARALLELISM)
    ensures algorithm == Scrypt ==> cost == ScryptCost(SCRYPT_N, SCRYPT_R, SCRYPT_P)
  {
    match algorithm
    case Pbkdf2 => Pbkdf2Cost(iterations as int * ITERATIONS_FACTOR)
    case Argon2 => Argon2Cost(iterations as int, ARGON2_MEMORY_KIB, ARGON2_PARALLELISM)
    case Scrypt => ScryptCost(SCRYPT_N, SCRYPT_R, SCRYPT_P)
  }

  /**
   * The first eight bytes of a buffer read as a host-order (little-endian)
   * 64-bit word: byte k lands in bits 8k .. 8k+7.
   */
  function LoadLittleEndian64(bytes: seq<bv8>): (word: bv64)
    requires |bytes| >= 8
    ensures (word & 0xFF) as bv8 == bytes[0] && ((word >> 8) & 0xFF) as bv8 == bytes[1]
    ensures ((word >> 16) & 0xFF) as bv8 == bytes[2] && ((word >> 24) & 0xFF) as bv8 == bytes[3]
    ensures ((word >> 32) & 0xFF) as bv8 == bytes[4] && ((word >> 40) & 0xFF) as bv8 == bytes[5]
    ensures ((word >> 48) & 0xFF) as bv8 == bytes[6] && (word >> 56) as bv8 == bytes[7]
  {
    (bytes[0] as bv64)
    | ((bytes[1] as bv64) << 8)
    | ((bytes[2] as bv64) << 16)
    | ((bytes[3] as bv64) << 24)
    | ((bytes[4] as bv64) << 32)
    | ((bytes[5] as bv64) << 40)
    | ((bytes[6] as bv64) << 48)
    | ((bytes[7] as bv64) << 56)
  }

  /**
   * The value compute_address_hash_suffix returns: the sentinel for an
   * unknown algorithm, otherwise the first eight bytes of the primitive's
   * output for the voucher seed, the salt of `mac` and the algorithm's cost.
   */
  function HashPrefix(kdf: Kdf, voucherSeed: seq<bv8>, mac: Mac, iterations: bv16, tag: int): bv64
  {
    match AlgorithmOfTag(tag)
    case None => UNKNOWN_ALGORITHM_SENTINEL
    case Some(a) => LoadLittleEndian64(kdf(a, voucherSeed, Salt(mac), CostFor(a, iterations)))
  }

  /** The salt array of compute_address_hash_suffix: filled from its template, then the MAC copied over its first six bytes. */
  method FillSalt(macAddress: Mac) returns (salt: array<bv8>)
    ensures fresh(salt) && salt[..] == Salt(macAddress)
  {
    salt := new bv8[SALT_LEN](i requires 0 <= i < SALT_LEN => SALT_TEMPLATE[i]);
    // memcpy(&salt[0], mac_address, 6)
    var k := 0;
    while k < 6
      invariant 0 <= k <= 6
      invariant salt[..] == macAddress[..k] + SALT_TEMPLATE[k..]
    {
      salt[k] := macAddress[k];
      k := k + 1;
    }
  }

  /**
   * compute_address_hash_suffix: builds the salt, dispatches on the
   * algorithm and reads the first eight bytes of the 32-byte result buffer.
   */
  method ComputeAddressHashSuffix(kdf: Kdf, voucherSeed: seq<bv8>, macAddress: Mac, iterations: bv16, algorithm: int)
    returns (hash: bv64)
    ensures hash == HashPrefix(kdf, voucherSeed, macAddress, iterations, algorithm)
    ensures AlgorithmOfTag(algorithm).None? ==> hash == UNKNOWN_ALGORITHM_SENTINEL
  {
    var salt := FillSalt(macAddress);
    var resBuffer: Digest;
    match algorithm {
      case 1 =>
        resBuffer := kdf(Pbkdf2, voucherSeed, salt[..], Pbkdf2Cost(iterations as int * ITERATIONS_FACTOR));
        assert resBuffer == kdf(Pbkdf2, voucherSeed, Salt(macAddress), CostFor(Pbkdf2, iterations));
      case 2 =>
        resBuffer := kdf(Argon2, voucherSeed, salt[..], Argon2Cost(iterations as int, ARGON2_MEMORY_KIB, ARGON2_PARALLELISM));
        assert resBuffer == kdf(Argon2, voucherSeed, Salt(macAddress), CostFor(Argon2, iterations));
      case 3 =>
        resBuffer := kdf(Scrypt, voucherSeed, salt[..], ScryptCost(SCRYPT_N, SCRYPT_R, SCRYPT_P));
        assert resBuffer == kdf(Scrypt, voucherSeed, Salt(macAddress), CostFor(Scrypt, iterations));
      case _ =>
        return UNKNOWN_ALGORITHM_SENTINEL;
    }
    hash := LoadLittleEndian64(resBuffer);
  }

  /**
   * `(uint64_t)(~iterations)`: the 16-bit count is promoted to a 32-bit int,
   * complemented (which makes it negative) and sign-extended to 64 bits. The
   * result is the 64-bit complement of the count.
   */
  function PromotedComplement(iterations: bv16): (c: bv64)
    ensures c == !(iterations as bv64)
    ensures c >> 16 == 0xFFFF_FFFF_FFFF
  {
    var complement32: bv32 := !(iterations as bv32);
    if complement32 & 0x8000_0000 != 0 then (complement32 as bv64) | 0xFFFF_FFFF_0000_0000
    else complement32 as bv64
  }

  /**
   * build_address_suffix: the complement of the iteration count in bits
   * 63..48 (the shift discards the sign bits of the promotion), the low 48
   * bits of the hash below it.
   */
  function BuildAddressSuffix(iterations: bv16, hashResult: bv64): (suffix: bv64)
    ensures (suffix >> 48) as bv16 == !iterations
    ensures suffix & LOW_48_MASK == hashResult & LOW_48_MASK
  {
    (PromotedComplement(iterations) << 48) | (LOW_48_MASK & hashResult)
  }

  /** The iteration count a suffix carries: `~(suffix >> 48) & 0xFFFF`. */
  function RecoverIterations(suffix: bv64): (iterations: bv16)
    ensures !iterations == (suffix >> 48) as bv16
  {
    (!(suffix >> 48) & 0xFFFF) as bv16
  }

  /** The recovered count is the one packed, and the low 48 bits are the hash's. */
  lemma SuffixRoundTrip(iterations: bv16, hashResult: bv64)
    ensures RecoverIterations(BuildAddressSuffix(iterations, hashResult)) == iterations
    ensures BuildAddressSuffix(iterations, hashResult) & LOW_48_MASK == hashResult & LOW_48_MASK
  {
  }

  /** Every 64-bit word is the suffix of its own recovered count and low bits. */
  lemma SuffixRebuild(suffix: bv64)
    ensures BuildAddressSuffix(RecoverIterations(suffix), suffix) == suffix
  {
  }

  /** Bits 63..48 of the hash never reach the suffix. */
  lemma SuffixIgnoresHighHashBits(iterations: bv16, h1: bv64, h2: bv64)
    requires h1 & LOW_48_MASK == h2 & LOW_48_MASK
    ensures BuildAddressSuffix(iterations, h1) == BuildAddressSuffix(iterations, h2)
  {
  }

  /**
   * For a fixed hash the suffix is strictly decreasing in the iteration
   * count (so also injective in it): a higher cost gives a smaller suffix.
   */
  lemma SuffixDecreasesWithIterations(i1: bv16, i2: bv16, hashResult: bv64)
    requires i1 < i2
    ensures BuildAddressSuffix(i2, hashResult) < BuildAddressSuffix(i1, hashResult)
  {
  }

  /** PBKDF2's scaled iteration count never exceeds 16,776,960, so the C int product does not overflow. */
  lemma Pbkdf2CostFitsInt(iterations: bv16)
    ensures CostFor(Pbkdf2, iterations).iterations <= 16_776_960 <= INT32_MAX
  {
  }

  /** The salt is the same for every algorithm, and scrypt's result does not depend on the iteration count. */
  lemma ScryptIgnoresIterations(kdf: Kdf, voucherSeed: seq<bv8>, mac: Mac, i1: bv16, i2: bv16)
    ensures HashPrefix(kdf, voucherSeed, mac, i1, SCRYPT_TAG) == HashPrefix(kdf, voucherSeed, mac, i2, SCRYPT_TAG)
  {
  }

  /** An unknown algorithm yields the sentinel whatever the primitives compute. */
  lemma UnknownAlgorithmIgnoresKdf(kdf1: Kdf, kdf2: Kdf, voucherSeed: seq<bv8>, mac: Mac, iterations: bv16, tag: int)
    requires AlgorithmOfTag(tag).None?
    ensures HashPrefix(kdf1, voucherSeed, mac, iterations, tag) == UNKNOWN_ALGORITHM_SENTINEL
    ensures HashPrefix(kdf1, voucherSeed, mac, iterations, tag) == HashPrefix(kdf2, voucherSeed, mac, iterations, tag)
  {
  }

  /**
   * Only the first six output bytes reach the suffix: two primitives that
   * agree on them give the same suffix for every known algorithm.
   */
  lemma SuffixUsesFirstSixDigestBytes(kdf1: Kdf, kdf2: Kdf, voucherSeed: seq<bv8>, mac: Mac, iterations: bv16, a: Algorithm)
    requires kdf1(a, voucherSeed, Salt(mac), CostFor(a, iterations))[..6] == kdf2(a, voucherSeed, Salt(mac), CostFor(a, iterations))[..6]
    ensures var tag := match a case Pbkdf2 => PBKDF2_TAG case Argon2 => ARGON2_TAG case Scrypt => SCRYPT_TAG;
            BuildAddressSuffix(iterations, HashPrefix(kdf1, voucherSeed, mac, iterations, tag))
            == BuildAddressSuffix(iterations, HashPrefix(kdf2, voucherSeed, mac, iterations, tag))
  {
    var d1 := kdf1(a, voucherSeed, Salt(mac), CostFor(a, iterations));
    var d2 := kdf2(a, voucherSeed, Salt(mac), CostFor(a, iterations));
    assert d1[0] == d2[0] && d1[1] == d2[1] && d1[2] == d2[2];
    assert d1[3] == d2[3] && d1[4] == d2[4] && d1[5] == d2[5];
    SuffixIgnoresHighHashBits(iterations, LoadLittleEndian64(d1), LoadLittleEndian64(d2));
  }

  /** The scenario of the design: iteration count 0x0100 puts 0xFEFF in bits 63..48. */
  lemma Iterations0x0100GivesFEFF(hashResult: bv64)
    ensures BuildAddressSuffix(0x0100, hashResult) >> 48 == 0xFEFF
  {
  }

  /**
   * verify_address_suffix is declared without a body; this is the
   * verification the design describes, composed from the members above:
   * recover the count, recompute the hash, rebuild and compare.
   */
  function VerifyAddressSuffix(kdf: Kdf, suffix: bv64, voucherSeed: seq<bv8>, mac: Mac, tag: int): bool
  {
    var iterations := RecoverIterations(suffix);
    BuildAddressSuffix(iterations, HashPrefix(kdf, voucherSeed, mac, iterations, tag)) == suffix
  }

  /** A suffix built from a seed, a MAC, a count and an algorithm verifies against them. */
  lemma VerifySound(kdf: Kdf, voucherSeed: seq<bv8>, mac: Mac, iterations: bv16, tag: int)
    ensures VerifyAddressSuffix(kdf, BuildAddressSuffix(iterations, HashPrefix(kdf, voucherSeed, mac, iterations, tag)), voucherSeed, mac, tag)
  {
    SuffixRoundTrip(iterations, HashPrefix(kdf, voucherSeed, mac, iterations, tag));
  }
}
