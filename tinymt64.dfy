/**
 * The integer path of TinyMT64 as vba-tests/tinymt64.h declares it: a
 * generator whose state is two 64-bit words plus three fixed parameters,
 * a state transition, a tempering output and the 64-bit draw that chains
 * the two. The words are `bv64`, so addition and shifts wrap and truncate
 * exactly as uint64_t arithmetic does.
 *
 * Every shift is written inside a small named function and the proofs talk
 * about those functions, so that the solver matches terms instead of
 * re-deriving bit patterns.
 */
module TinyMT64 {
  /** The Mersenne exponent of the generator: the period is 2^127 - 1. */
  const MEXP := 127
  /** status[0] only keeps its low 63 bits. */
  const MASK: bv64 := 0x7FFF_FFFF_FFFF_FFFF
  const TOP_BIT: bv64 := 0x8000_0000_0000_0000
  const LOW_32: bv64 := 0xFFFF_FFFF

  /** The two state words, status[0] and status[1]. */
  datatype Status = Status(s0: bv64, s1: bv64)

  /** tinymt64_get_mexp: the exponent, which is the number of live state bits. */
  function GetMexp(): (r: int)
    ensures r == 63 + 64
  {
    MEXP
  }

  // ---------------------------------------------------------------------------
  // The state transition as functions of the words.
  // ---------------------------------------------------------------------------

  /** The four steps `x ^= x << SH0`, `x ^= x >> 32`, `x ^= x << 32`, `x ^= x << SH1`. */
  function XorLeft12(x: bv64): bv64 { x ^ (x << 12) }
  function XorRight32(x: bv64): bv64 { x ^ (x >> 32) }
  function XorLeft32(x: bv64): bv64 { x ^ (x << 32) }
  function XorLeft11(x: bv64): bv64 { x ^ (x << 11) }

  /** The four steps in the order next_state applies them. */
  function Mix(v: bv64): bv64 {
    XorLeft11(XorLeft32(XorRight32(XorLeft12(v))))
  }

  /** status[0] once next_state has cleared its top bit. */
  function Masked(s0: bv64): bv64 { s0 & MASK }

  /** The word next_state mixes: the masked status[0] xored with status[1]. */
  function Feed(st: Status): bv64 {
    Xor(Masked(st.s0), st.s1)
  }

  /** `a ^ b` */
  function Xor(a: bv64, b: bv64): bv64 { a ^ b }

  /** mat1 widened to 64 bits, and mat2 moved into the upper half. */
  function Mat1Word(mat1: bv32): bv64 { mat1 as bv64 }
  function Mat2Word(mat2: bv32): bv64 { (mat2 as bv64) << 32 }

  /**
   * The end of next_state once x is mixed: status[0] becomes the old
   * status[1] and status[1] becomes x, both xored with their parameter
   * exactly when x is odd.
   */
  function Advance(x: bv64, s1: bv64, mat1: bv32, mat2: bv32): Status {
    if Odd(x) then Status(Xor(s1, Mat1Word(mat1)), Xor(x, Mat2Word(mat2)))
    else Status(s1, x)
  }

  /** `(x & 1) != 0` */
  predicate Odd(x: bv64) { x & 1 != 0 }

  /** tinymt64_next_state on the words. */
  function NextStatus(st: Status, mat1: bv32, mat2: bv32): Status {
    Advance(Mix(Feed(st)), st.s1, mat1, mat2)
  }

  /**
   * What the step makes of the words, for the mixed word x: status[0] is
   * the old status[1], with mat1 (widened with zeros) in it exactly when x
   * is odd; mat2 lands in the upper half of status[1], so its lower half,
   * and with it its parity, is x's.
   */
  lemma AdvanceWords(x: bv64, s1: bv64, mat1: bv32, mat2: bv32)
    ensures Advance(x, s1, mat1, mat2).s0 == if x & 1 != 0 then s1 ^ (mat1 as bv64) else s1
    ensures Advance(x, s1, mat1, mat2).s1 & LOW_32 == x & LOW_32
    ensures Advance(x, s1, mat1, mat2).s1 >> 32 == if x & 1 != 0 then (x >> 32) ^ (mat2 as bv64) else x >> 32
  {
  }

  /** Bit 63 of status[0] is masked off before it is read, so it never matters. */
  lemma {:induction false} TopBitIgnored(st: Status, mat1: bv32, mat2: bv32)
    ensures NextStatus(Status(st.s0 ^ TOP_BIT, st.s1), mat1, mat2) == NextStatus(st, mat1, mat2)
  {
    FeedIgnoresTopBit(st);
  }

  lemma {:induction false} FeedIgnoresTopBit(st: Status)
    ensures Feed(Status(st.s0 ^ TOP_BIT, st.s1)) == Feed(st)
  {
    MaskDropsTopBit(st.s0);
  }

  lemma MaskDropsTopBit(s0: bv64)
    ensures Masked(s0 ^ TOP_BIT) == Masked(s0)
  {
  }

  /**
   * The step can be run backwards as far as status[1] goes: the new
   * status[1] is odd exactly when mat1 went into the new status[0], so the
   * old status[1] is the new status[0] with mat1 taken out again.
   */
  function PreviousStatus1(r: Status, mat1: bv32): bv64 {
    if r.s1 & 1 != 0 then r.s0 ^ Mat1Word(mat1) else r.s0
  }

  lemma {:induction false} StepRecoversStatus1(st: Status, mat1: bv32, mat2: bv32)
    ensures PreviousStatus1(NextStatus(st, mat1, mat2), mat1) == st.s1
  {
    AdvanceRecoversStatus1(Mix(Feed(st)), st.s1, mat1, mat2);
  }

  lemma AdvanceRecoversStatus1(x: bv64, s1: bv64, mat1: bv32, mat2: bv32)
    ensures PreviousStatus1(Advance(x, s1, mat1, mat2), mat1) == s1
  {
  }

  // ---------------------------------------------------------------------------
  // Tempering.
  // ---------------------------------------------------------------------------

  /** The wrapping sum status[0] + status[1]. */
  function Sum(st: Status): bv64 { st.s0 + st.s1 }

  /** `s0 >> SH8` */
  function Shr8(s0: bv64): bv64 { s0 >> 8 }

  /** The default build's tempering input: the wrapping sum, xored with status[0] >> SH8. */
  function Tempering(st: Status): bv64 {
    Xor(Sum(st), Shr8(st.s0))
  }

  /** x, xored with tmat exactly when it is odd. */
  function TmatIfOdd(x: bv64, tmat: bv64): bv64 {
    if Odd(x) then Xor(x, tmat) else x
  }

  /** tinymt64_temper on the words. */
  function TemperWords(st: Status, tmat: bv64): bv64 {
    TmatIfOdd(Tempering(st), tmat)
  }

  /** Xoring the same word in twice leaves nothing of it. */
  lemma XorCancel(a: bv64, b: bv64)
    ensures Xor(Xor(a, b), b) == a
  {
  }

  /** An even word does not change the parity of what it is xored into. */
  lemma XorEvenKeepsParity(a: bv64, b: bv64)
    requires b & 1 == 0
    ensures Odd(Xor(a, b)) == Odd(a)
  {
  }

  /** The tempering input gives back the wrapped sum once status[0] >> 8 is xored out again. */
  lemma {:induction false} TemperingHoldsSum(st: Status)
    ensures Xor(Tempering(st), Shr8(st.s0)) == Sum(st)
  {
    XorCancel(Sum(st), Shr8(st.s0));
  }

  /**
   * With an even tmat the conditional xor is its own inverse: the parity
   * survives it, so applying it again takes tmat out of exactly the words
   * it went into.
   */
  lemma {:induction false} TmatIfOddInvolution(x: bv64, tmat: bv64)
    requires tmat & 1 == 0
    ensures TmatIfOdd(TmatIfOdd(x, tmat), tmat) == x
  {
    if Odd(x) {
      XorEvenKeepsParity(x, tmat);
      XorCancel(x, tmat);
    }
  }

  /**
   * With an even tmat the output gives back the tempering input, and so,
   * for a known status[0], the wrapped sum of the words.
   */
  lemma {:induction false} TemperRecoversInput(st: Status, tmat: bv64)
    requires tmat & 1 == 0
    ensures TmatIfOdd(TemperWords(st, tmat), tmat) == Tempering(st)
  {
    TmatIfOddInvolution(Tempering(st), tmat);
  }

  /** With an odd tmat every output is even: an odd value loses its low bit to tmat. */
  lemma OddTmatGivesEvenOutput(st: Status, tmat: bv64)
    requires tmat & 1 == 1
    ensures TemperWords(st, tmat) & 1 == 0
  {
  }

}

/** The generator object, whose methods update its words in place. */
module TinyMT64Generator {
  import opened TinyMT64

  /** tinymt64_t: the state vector and the three parameters. */
  class Tinymt64 {
    var status0: bv64
    var status1: bv64
    var mat1: bv32
    var mat2: bv32
    var tmat: bv64

    /** A generator with the given words and parameters. Seeding is not part of this model. */
    constructor(st: Status, mat1: bv32, mat2: bv32, tmat: bv64)
      ensures Words() == st && this.mat1 == mat1 && this.mat2 == mat2 && this.tmat == tmat
    {
      status0, status1 := st.s0, st.s1;
      this.mat1, this.mat2, this.tmat := mat1, mat2, tmat;
    }

    /** The state vector as a value. */
    function Words(): Status
      reads this
    {
      Status(status0, status1)
    }

    /**
     * tinymt64_next_state: clears the top bit of status[0], mixes, and
     * moves the words along; the parameters stay as they are.
     */
    method NextState()
      modifies this
      ensures Words() == NextStatus(old(Words()), mat1, mat2)
      ensures mat1 == old(mat1) && mat2 == old(mat2) && tmat == old(tmat)
    {
      status0 := Masked(status0);
      var x := Xor(status0, status1);
      x := XorLeft12(x);
      x := XorRight32(x);
      x := XorLeft32(x);
      x := XorLeft11(x);
      status0 := status1;
      status1 := x;
      if Odd(x) {
        status0 := Xor(status0, Mat1Word(mat1));
        status1 := Xor(status1, Mat2Word(mat2));
      }
    }

    /** tinymt64_temper: a function of the state, so it changes nothing. */
    function Temper(): bv64
      reads this
    {
      TemperWords(Words(), tmat)
    }

    /** tinymt64_generate_uint64: one state transition, then the tempered output of the new state. */
    method GenerateUint64() returns (r: bv64)
      modifies this
      ensures Words() == NextStatus(old(Words()), mat1, mat2)
      ensures mat1 == old(mat1) && mat2 == old(mat2) && tmat == old(tmat)
      ensures r == TemperWords(NextStatus(old(Words()), mat1, mat2), tmat)
    {
      NextState();
      r := Temper();
    }
  }
}
