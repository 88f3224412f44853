/**
 * MAC addresses as 64-bit counters (_roll_mac_address in both collision
 * drivers) and the reserved blocks the ordered search jumps over.
 *
 * _roll_mac_address copies the six lowest-addressed bytes of a uint64_t into
 * the MAC buffer. On the little-endian hosts the drivers target these are the
 * six least significant bytes, least significant first; that byte order is
 * part of this model.
 */
module MacCounter {
  import opened VbaCodec

  const UINT64_MAX := 0xFFFF_FFFF_FFFF_FFFF
  /** A value a uint64_t holds. */
  type U64 = n: int | 0 <= n <= UINT64_MAX
  /** Number of distinct 48-bit MAC addresses. */
  const MAC_SPACE := 0x1_0000_0000_0000

  // ---------------------------------------------------------------------------
  // Little-endian bytes of a counter.
  // ---------------------------------------------------------------------------

  /** 256 to the power n. */
  function Pow256(n: nat): (p: nat)
    ensures p >= 1
  {
    if n == 0 then 1 else 256 * Pow256(n - 1)
  }

  /** A byte from its numeric value. */
  function ToByte(n: nat): (b: bv8)
    requires n < 256
    ensures b as int == n
  {
    if n == 0 then 0 else ToByte(n - 1) + 1
  }

  /** Every byte is the byte of its own value. */
  lemma ByteRoundTrip(b: bv8)
    ensures ToByte(b as int) == b
  {
  }

  /** The powers that bound a MAC and a uint64_t. */
  lemma Pow256Bounds()
    ensures Pow256(6) == MAC_SPACE && Pow256(8) == UINT64_MAX + 1
  {
    assert Pow256(2) == 0x1_0000;
    assert Pow256(4) == 0x1_0000_0000;
    assert Pow256(6) == 0x1_0000_0000_0000;
  }

  /** The n least significant bytes of v, least significant first. */
  function LeBytes(v: nat, n: nat): (bs: seq<bv8>)
    ensures |bs| == n
  {
    if n == 0 then [] else [ToByte(v % 256)] + LeBytes(v / 256, n - 1)
  }

  /** The number little-endian bytes spell. */
  function LeValue(bs: seq<bv8>): (v: nat)
    ensures v < Pow256(|bs|)
  {
    if bs == [] then 0 else bs[0] as int + 256 * LeValue(bs[1..])
  }

  lemma MulAtLeast(d: int, n: int)
    requires d > 0 && n >= 1
    ensures d * n >= d
  {
  }

  /** Euclidean division is determined by quotient and remainder. */
  lemma ModUnique(v: int, d: int, k: int, x: int)
    requires d > 0 && v == d * k + x && 0 <= x < d
    ensures v / d == k && v % d == x
  {
    var q, r := v / d, v % d;
    assert d * (k - q) == r - x by {
      assert v == d * q + r;
    }
    if k > q {
      MulAtLeast(d, k - q);
    } else if k < q {
      MulAtLeast(d, q - k);
    }
  }

  /** Splitting off the lowest byte of a remainder and of a quotient. */
  lemma DivMod(v: nat, m: nat)
    requires m >= 1
    ensures v % (256 * m) == v % 256 + 256 * ((v / 256) % m)
    ensures v / (256 * m) == (v / 256) / m
  {
    var q1, r1 := v / 256, v % 256;
    var q2, r2 := q1 / m, q1 % m;
    assert v == 256 * m * q2 + (r1 + 256 * r2) by {
      assert v == 256 * q1 + r1;
      assert q1 == m * q2 + r2;
    }
    assert r1 + 256 * r2 < 256 * m by {
      assert r2 <= m - 1;
      assert 256 * r2 <= 256 * (m - 1);
    }
    ModUnique(v, 256 * m, q2, r1 + 256 * r2);
  }

  /** Reading back n bytes of v gives v modulo 256^n: the bytes above are dropped. */
  lemma {:induction false} LeRoundTrip(v: nat, n: nat)
    ensures LeValue(LeBytes(v, n)) == v % Pow256(n)
  {
    if n > 0 {
      var bs := LeBytes(v, n);
      assert bs[1..] == LeBytes(v / 256, n - 1);
      LeRoundTrip(v / 256, n - 1);
      DivMod(v, Pow256(n - 1));
    }
  }

  /** Writing out the value of a byte sequence gives the sequence back. */
  lemma {:induction false} LeBytesOfValue(bs: seq<bv8>)
    ensures LeBytes(LeValue(bs), |bs|) == bs
  {
    if bs != [] {
      var v, tail := LeValue(bs), LeValue(bs[1..]);
      assert v == 256 * tail + bs[0] as int;
      ModUnique(v, 256, tail, bs[0] as int);
      LeBytesOfValue(bs[1..]);
      ByteRoundTrip(bs[0]);
      calc {
        LeBytes(v, |bs|);
        [ToByte(v % 256)] + LeBytes(v / 256, |bs| - 1);
        [ToByte(bs[0] as int)] + LeBytes(tail, |bs[1..]|);
        [bs[0]] + bs[1..];
      }
    }
  }

  // ---------------------------------------------------------------------------
  // _roll_mac_address.
  // ---------------------------------------------------------------------------

  /** The MAC a counter stands for: its six least significant bytes, least significant first. */
  function MacBytes(v: nat): Mac {
    LeBytes(v, 6)
  }

  /** The counter a MAC stands for. */
  function MacValue(mac: Mac): (v: nat)
    ensures v < MAC_SPACE
  {
    Pow256Bounds();
    LeValue(mac)
  }

  /** Only the low 48 bits of a counter reach the MAC, so counters 2^48 apart roll the same MAC. */
  lemma MacBytesDropsHighBits(v: nat)
    ensures MacValue(MacBytes(v)) == v % MAC_SPACE
    ensures MacBytes(v) == MacBytes(v % MAC_SPACE)
  {
    Pow256Bounds();
    LeRoundTrip(v, 6);
    LeBytesOfValue(MacBytes(v));
  }

  /** Distinct counters below 2^48 roll distinct MACs: the counter can be read back. */
  lemma MacBytesInjective(v: nat)
    requires v < MAC_SPACE
    ensures MacValue(MacBytes(v)) == v
  {
    Pow256Bounds();
    LeRoundTrip(v, 6);
    ModUnique(v, MAC_SPACE, 0, v);
  }

  /** Every MAC is rolled by the counter it spells. */
  lemma MacBytesOnto(mac: Mac)
    ensures MacBytes(MacValue(mac)) == mac
  {
    LeBytesOfValue(mac);
  }

  /** The first n of the bytes written for v are the bytes written for n alone. */
  lemma {:induction false} LeBytesPrefix(v: nat, n: nat, m: nat)
    requires m <= n
    ensures LeBytes(v, n)[..m] == LeBytes(v, m)
  {
    if m > 0 {
      LeBytesPrefix(v / 256, n - 1, m - 1);
      assert LeBytes(v, n)[..m] == [ToByte(v % 256)] + LeBytes(v / 256, n - 1)[..m - 1];
    }
  }

  /** The eight bytes of a uint64_t in the memory of a little-endian host; they spell its value. */
  function MemoryImage(rand: U64): (bytes: seq<bv8>)
    ensures |bytes| == 8 && LeValue(bytes) == rand
  {
    LeRoundTrip(rand, 8);
    Pow256Bounds();
    ModUnique(rand, Pow256(8), 0, rand);
    LeBytes(rand, 8)
  }

  /**
   * _roll_mac_address: the counter UINT64_MAX (the drivers pass -1) asks
   * for a random value, supplied here as `draw`; any other counter is used
   * as given. Its six low memory bytes are written to the buffer.
   */
  method RollMacAddress(macAddress: array<bv8>, rand: U64, draw: U64)
    requires macAddress.Length == 6
    modifies macAddress
    ensures macAddress[..] == MacBytes(if rand == UINT64_MAX then draw else rand)
  {
    var r := if UINT64_MAX == rand then draw else rand;
    var image := MemoryImage(r);
    macAddress[0] := image[0];
    macAddress[1] := image[1];
    macAddress[2] := image[2];
    macAddress[3] := image[3];
    macAddress[4] := image[4];
    macAddress[5] := image[5];
    LeBytesPrefix(r, 8, 6);
    assert macAddress[..] == image[..6];
  }

  // ---------------------------------------------------------------------------
  // Reserved blocks skipped by the ordered search.
  // ---------------------------------------------------------------------------

  /** Counter compared against for the IPv4 multicast OUI 01-00-5E, and the jump taken from it. */
  const IPV4_MULTICAST_START := 0x0000_0100_5E00_0000
  const IPV4_MULTICAST_JUMP := 0x0000_0000_0100_0000
  /** Counter compared against for the IANA OUI 00-5E-xx, and the jump. */
  const IANA_START := 0x0000_005E_0000_0000
  const IANA_JUMP := 0x0000_0001_0000_0000
  /** Counter compared against for the PPP range starting with CF, and the jump. */
  const PPP_START := 0x0000_CF00_0000_0000
  const PPP_JUMP := 0x0000_0100_0000_0000
  /** Counter compared against for the IPv6 multicast range 33-33, and the jump. */
  const IPV6_MULTICAST_START := 0x0000_3333_0000_0000
  const IPV6_MULTICAST_JUMP := 0x0000_0001_0000_0000

  /** A reserved range: the counter the ordered loop tests for, and how far it jumps from there. */
  datatype ReservedBlock = ReservedBlock(start: nat, jump: nat)

  /** The four tests at the top of the ordered loop body, in the order they run. */
  const RESERVED_BLOCKS: seq<ReservedBlock> := [
    ReservedBlock(IPV4_MULTICAST_START, IPV4_MULTICAST_JUMP),
    ReservedBlock(IANA_START, IANA_JUMP),
    ReservedBlock(PPP_START, PPP_JUMP),
    ReservedBlock(IPV6_MULTICAST_START, IPV6_MULTICAST_JUMP)
  ]

  /** Run the tests of `blocks` one after another: each one jumps if the counter equals its start. */
  function SkipBlocks(mac: nat, blocks: seq<ReservedBlock>): (next: nat)
    ensures next >= mac
    decreases |blocks|
  {
    if blocks == [] then mac
    else SkipBlocks(if mac == blocks[0].start then mac + blocks[0].jump else mac, blocks[1..])
  }

  /** Where the four tests at the top of the ordered loop body move a counter. */
  function Skip(mac: nat): (next: nat)
    ensures next >= mac
  {
    SkipBlocks(mac, RESERVED_BLOCKS)
  }

  /**
   * A block start goes to the end of its block and anything else stays: the
   * tests run one after another, but no jump lands on a later block's start,
   * so at most one of them fires.
   */
  lemma SkipUnrolled(mac: nat)
    ensures Skip(mac) == if mac == IPV4_MULTICAST_START then mac + IPV4_MULTICAST_JUMP
                         else if mac == IANA_START then mac + IANA_JUMP
                         else if mac == PPP_START then mac + PPP_JUMP
                         else if mac == IPV6_MULTICAST_START then mac + IPV6_MULTICAST_JUMP
                         else mac
  {
    var b := RESERVED_BLOCKS;
    var m1 := if mac == IPV4_MULTICAST_START then mac + IPV4_MULTICAST_JUMP else mac;
    var m2 := if m1 == IANA_START then m1 + IANA_JUMP else m1;
    var m3 := if m2 == PPP_START then m2 + PPP_JUMP else m2;
    var m4 := if m3 == IPV6_MULTICAST_START then m3 + IPV6_MULTICAST_JUMP else m3;
    assert b[1..][1..][1..][1..] == [];
    assert SkipBlocks(m3, b[1..][1..][1..]) == m4;
    assert SkipBlocks(m2, b[1..][1..]) == m4;
    assert SkipBlocks(m1, b[1..]) == m4;
    assert Skip(mac) == m4;
  }

  /** The four tests at the top of the ordered loop body, run in place on the counter. */
  method SkipReserved(mac: nat) returns (next: nat)
    ensures next == Skip(mac)
    ensures next == mac || IsLanding(next)
  {
    SkipUnrolled(mac);
    next := mac;
    if IPV4_MULTICAST_START == next { next := next + IPV4_MULTICAST_JUMP; }
    if IANA_START == next { next := next + IANA_JUMP; }
    if PPP_START == next { next := next + PPP_JUMP; }
    if IPV6_MULTICAST_START == next { next := next + IPV6_MULTICAST_JUMP; }
  }

  /** A counter the ordered search jumps over when it arrives at the block start. */
  predicate InReservedBlock(v: int) {
    || IPV4_MULTICAST_START <= v < IPV4_MULTICAST_START + IPV4_MULTICAST_JUMP
    || IANA_START <= v < IANA_START + IANA_JUMP
    || PPP_START <= v < PPP_START + PPP_JUMP
    || IPV6_MULTICAST_START <= v < IPV6_MULTICAST_START + IPV6_MULTICAST_JUMP
  }

  /** A counter inside a block but not at its start: reached only by starting there. */
  predicate InBlockInterior(v: int) {
    InReservedBlock(v) && !IsBlockStart(v)
  }

  predicate IsBlockStart(v: int) {
    v == IPV4_MULTICAST_START || v == IANA_START || v == PPP_START || v == IPV6_MULTICAST_START
  }

  /** Where a jump lands: the first counter after a block. */
  predicate IsLanding(v: int) {
    || v == IPV4_MULTICAST_START + IPV4_MULTICAST_JUMP
    || v == IANA_START + IANA_JUMP
    || v == PPP_START + PPP_JUMP
    || v == IPV6_MULTICAST_START + IPV6_MULTICAST_JUMP
  }

  /** The highest landing: where the PPP jump ends. */
  const HIGHEST_LANDING := PPP_START + PPP_JUMP

  /**
   * Skip leaves a counter outside the blocks alone and moves a block start
   * to the end of its block, which is outside every block: no landing is
   * another block's start, so one jump is all that happens.
   */
  lemma SkipCases(mac: nat)
    ensures !IsBlockStart(mac) ==> Skip(mac) == mac
    ensures IsBlockStart(mac) ==> IsLanding(Skip(mac)) && !InReservedBlock(Skip(mac))
    ensures IsBlockStart(mac) ==> forall v :: mac <= v < Skip(mac) ==> InReservedBlock(v)
    ensures !InBlockInterior(mac) ==> !InReservedBlock(Skip(mac))
    ensures Skip(mac) <= if mac < HIGHEST_LANDING then HIGHEST_LANDING else mac
  {
    SkipUnrolled(mac);
  }

  /** Started outside a block's interior, Skip lands outside every block. */
  lemma SkipLandsOutside(mac: nat)
    requires !InBlockInterior(mac)
    ensures !InReservedBlock(Skip(mac))
  {
    SkipUnrolled(mac);
  }

  /** Every counter a jump passes over lies in a reserved block. */
  lemma SkippedAreReserved(mac: nat, w: int)
    requires mac <= w < Skip(mac)
    ensures InReservedBlock(w)
  {
    SkipUnrolled(mac);
  }

  /** The counter compared with the IPv4 multicast OUI rolls 00:00:00:5E:00:01, whose OUI is 00-00-00. */
  lemma IPv4MulticastStartRollsReversedOui()
    ensures MacBytes(IPV4_MULTICAST_START) == [0x00, 0x00, 0x00, 0x5E, 0x00, 0x01]
  {
    var mac: Mac := [0x00, 0x00, 0x00, 0x5E, 0x00, 0x01];
    assert LeValue(mac[5..]) == 0x01;
    assert LeValue(mac[4..]) == 0x0100;
    assert LeValue(mac[3..]) == 0x01005E;
    assert LeValue(mac[2..]) == 0x01005E00;
    assert LeValue(mac[1..]) == 0x01005E0000;
    assert MacValue(mac) == IPV4_MULTICAST_START;
    MacBytesOnto(mac);
  }
}
