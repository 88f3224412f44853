/**
 * The textual link-local address of a suffix (print_lladdr_from_suffix in
 * vba-tests/vba.c): "fe80::" and then the eight suffix bytes, most
 * significant first, each as two lower-case hexadecimal digits, with a colon
 * after the second, fourth and sixth byte.
 */
module AddressText {

  const LINK_LOCAL_PREFIX := "fe80::"
  const HEX_DIGITS := "0123456789abcdef"
  /** Length of the rendered address: the prefix, 16 digits and three colons. */
  const ADDRESS_TEXT_LEN := 25

  /** The lower-case digit of a nibble, as printf's %x prints it. */
  function HexDigit(nibble: bv8): char
    requires nibble < 16
  {
    HEX_DIGITS[nibble as int]
  }

  predicate IsHexDigit(c: char) {
    '0' <= c <= '9' || 'a' <= c <= 'f'
  }

  /** The nibble a lower-case hexadecimal digit stands for. */
  function HexValue(c: char): (nibble: bv8)
    requires IsHexDigit(c)
    ensures nibble < 16 && HexDigit(nibble) == c
  {
    if c == '0' then 0 else if c == '1' then 1 else if c == '2' then 2 else if c == '3' then 3
    else if c == '4' then 4 else if c == '5' then 5 else if c == '6' then 6 else if c == '7' then 7
    else if c == '8' then 8 else if c == '9' then 9 else if c == 'a' then 10 else if c == 'b' then 11
    else if c == 'c' then 12 else if c == 'd' then 13 else if c == 'e' then 14 else 15
  }

  lemma {:induction false} HexDigitRoundTrip(nibble: bv8)
    requires nibble < 16
    ensures IsHexDigit(HexDigit(nibble)) && HexValue(HexDigit(nibble)) == nibble
  {
    if nibble < 8 {
      if nibble < 4 {
        if nibble < 2 { assert nibble == 0 || nibble == 1; } else { assert nibble == 2 || nibble == 3; }
      } else {
        if nibble < 6 { assert nibble == 4 || nibble == 5; } else { assert nibble == 6 || nibble == 7; }
      }
    } else {
      if nibble < 12 {
        if nibble < 10 { assert nibble == 8 || nibble == 9; } else { assert nibble == 10 || nibble == 11; }
      } else {
        if nibble < 14 { assert nibble == 12 || nibble == 13; } else { assert nibble == 14 || nibble == 15; }
      }
    }
  }

  /** "%02x": two lower-case digits, high nibble first. */
  function Hex2(b: bv8): (s: string)
    ensures |s| == 2 && IsHexDigit(s[0]) && IsHexDigit(s[1])
    ensures HexValue(s[0]) == b >> 4 && HexValue(s[1]) == b & 0xF
  {
    HexDigitRoundTrip(b >> 4);
    HexDigitRoundTrip(b & 0xF);
    [HexDigit(b >> 4), HexDigit(b & 0xF)]
  }

  /** The byte two hexadecimal digits spell. */
  function ByteOfHex(hi: char, lo: char): bv8
    requires IsHexDigit(hi) && IsHexDigit(lo)
  {
    (HexValue(hi) << 4) | HexValue(lo)
  }

  /**
   * Byte i (1 = most significant) of the suffix, `(suffix >> (64 - i * 8)) & 0xFF`,
   * with the shift amount written out for each of the eight rounds.
   */
  function AddressByte(suffix: bv64, i: nat): bv8
    requires 1 <= i <= 8
  {
    match i
    case 1 => ((suffix >> 56) & 0xFF) as bv8
    case 2 => ((suffix >> 48) & 0xFF) as bv8
    case 3 => ((suffix >> 40) & 0xFF) as bv8
    case 4 => ((suffix >> 32) & 0xFF) as bv8
    case 5 => ((suffix >> 24) & 0xFF) as bv8
    case 6 => ((suffix >> 16) & 0xFF) as bv8
    case 7 => ((suffix >> 8) & 0xFF) as bv8
    case 8 => (suffix & 0xFF) as bv8
  }

  /** What follows byte i: a colon when `(i - 1) % 2 && i < 8`, that is after bytes 2, 4 and 6. */
  function Separator(i: nat): string
    requires 1 <= i <= 8
  {
    if (i - 1) % 2 != 0 && i < 8 then ":" else ""
  }

  /** The text the loop has printed after its first n rounds. */
  function Emitted(suffix: bv64, n: nat): string
    requires n <= 8
  {
    if n == 0 then "" else Emitted(suffix, n - 1) + Hex2(AddressByte(suffix, n)) + Separator(n)
  }

  /** Group g (1 to 4) of the presentation: bytes 2g - 1 and 2g as four digits. */
  function Group(suffix: bv64, g: nat): (grp: string)
    requires 1 <= g <= 4
    ensures IsGroupText(grp)
  {
    Hex2(AddressByte(suffix, 2 * g - 1)) + Hex2(AddressByte(suffix, 2 * g))
  }

  /** Four hexadecimal digits: the text of one group. */
  predicate IsGroupText(g: string) {
    |g| == 4 && IsHexDigit(g[0]) && IsHexDigit(g[1]) && IsHexDigit(g[2]) && IsHexDigit(g[3])
  }

  /** The presentation of the address: four colon-separated groups of two bytes each after "fe80::". */
  function LinkLocalText(suffix: bv64): string
  {
    LINK_LOCAL_PREFIX + Group(suffix, 1) + ":" + Group(suffix, 2) + ":" + Group(suffix, 3) + ":" + Group(suffix, 4)
  }

  lemma Regroup(e: string, a: string, b: string, sep: string)
    ensures (e + a + "") + b + sep == e + (a + b) + sep
  {
  }

  /** Two rounds of the loop print one group, followed by a colon unless it is the last. */
  lemma {:induction false} EmittedPair(suffix: bv64, g: nat)
    requires 1 <= g <= 4
    ensures Emitted(suffix, 2 * g) == Emitted(suffix, 2 * g - 2) + Group(suffix, g) + (if g < 4 then ":" else "")
  {
    var a := Hex2(AddressByte(suffix, 2 * g - 1));
    var b := Hex2(AddressByte(suffix, 2 * g));
    var e := Emitted(suffix, 2 * g - 2);
    var sep := if g < 4 then ":" else "";
    assert Separator(2 * g - 1) == "" && Separator(2 * g) == sep;
    assert Emitted(suffix, 2 * g - 1) == e + a + "";
    assert Emitted(suffix, 2 * g) == Emitted(suffix, 2 * g - 1) + b + sep;
    Regroup(e, a, b, sep);
  }

  lemma JoinGroups(p: string, e0: string, e2: string, e4: string, e6: string, e8: string,
                   g1: string, g2: string, g3: string, g4: string)
    requires e0 == [] && e2 == e0 + g1 + ":" && e4 == e2 + g2 + ":" && e6 == e4 + g3 + ":" && e8 == e6 + g4 + ""
    ensures p + e8 == p + g1 + ":" + g2 + ":" + g3 + ":" + g4
  {
    assert e2 == g1 + ":";
  }

  /** Eight rounds of the loop print the four groups, separated by three colons. */
  lemma {:induction false} EmittedGroups(suffix: bv64)
    ensures LINK_LOCAL_PREFIX + Emitted(suffix, 8) == LinkLocalText(suffix)
  {
    EmittedPair(suffix, 1);
    EmittedPair(suffix, 2);
    EmittedPair(suffix, 3);
    EmittedPair(suffix, 4);
    JoinGroups(LINK_LOCAL_PREFIX, Emitted(suffix, 0), Emitted(suffix, 2), Emitted(suffix, 4), Emitted(suffix, 6),
               Emitted(suffix, 8), Group(suffix, 1), Group(suffix, 2), Group(suffix, 3), Group(suffix, 4));
  }

  lemma Append3(p: string, e: string, a: string, b: string)
    ensures (p + e) + a + b == p + (e + a + b)
  {
  }

  /** print_lladdr_from_suffix: the counted loop over the eight bytes, emitting into a string. */
  method PrintLinkLocalFromSuffix(suffix: bv64) returns (text: string)
    ensures text == LinkLocalText(suffix)
  {
    text := LINK_LOCAL_PREFIX;
    for i := 1 to 9
      invariant text == LINK_LOCAL_PREFIX + Emitted(suffix, i - 1)
    {
      Append3(LINK_LOCAL_PREFIX, Emitted(suffix, i - 1), Hex2(AddressByte(suffix, i)), Separator(i));
      text := text + Hex2(AddressByte(suffix, i)) + Separator(i);
    }
    EmittedGroups(suffix);
  }

  /** The shape of a rendered address: the prefix, then four groups of digits separated by colons. */
  predicate IsLinkLocalText(t: string) {
    && |t| == ADDRESS_TEXT_LEN
    && t[..6] == LINK_LOCAL_PREFIX
    && t[10] == ':' && t[15] == ':' && t[20] == ':'
    && IsGroupText(t[6..10]) && IsGroupText(t[11..15]) && IsGroupText(t[16..20]) && IsGroupText(t[21..])
  }

  /** Eight bytes, most significant first, as a 64-bit value. */
  function Pack(b1: bv8, b2: bv8, b3: bv8, b4: bv8, b5: bv8, b6: bv8, b7: bv8, b8: bv8): (v: bv64)
    ensures AddressByte(v, 1) == b1 && AddressByte(v, 2) == b2 && AddressByte(v, 3) == b3 && AddressByte(v, 4) == b4
    ensures AddressByte(v, 5) == b5 && AddressByte(v, 6) == b6 && AddressByte(v, 7) == b7 && AddressByte(v, 8) == b8
  {
    ((b1 as bv64) << 56) | ((b2 as bv64) << 48) | ((b3 as bv64) << 40) | ((b4 as bv64) << 32)
    | ((b5 as bv64) << 24) | ((b6 as bv64) << 16) | ((b7 as bv64) << 8) | (b8 as bv64)
  }

  /** A value is determined by its eight bytes. */
  lemma PackBytes(v: bv64)
    ensures Pack(AddressByte(v, 1), AddressByte(v, 2), AddressByte(v, 3), AddressByte(v, 4),
                 AddressByte(v, 5), AddressByte(v, 6), AddressByte(v, 7), AddressByte(v, 8)) == v
  {
  }

  /** The two bytes a group of four digits spells. */
  function GroupBytes(g: string): (bytes: (bv8, bv8))
    requires IsGroupText(g)
  {
    (ByteOfHex(g[0], g[1]), ByteOfHex(g[2], g[3]))
  }

  /** The suffix a rendered address spells. */
  function SuffixOfText(t: string): bv64
    requires IsLinkLocalText(t)
  {
    var (b1, b2) := GroupBytes(t[6..10]);
    var (b3, b4) := GroupBytes(t[11..15]);
    var (b5, b6) := GroupBytes(t[16..20]);
    var (b7, b8) := GroupBytes(t[21..]);
    Pack(b1, b2, b3, b4, b5, b6, b7, b8)
  }

  lemma HexPairRoundTrip(b: bv8)
    ensures ByteOfHex(Hex2(b)[0], Hex2(b)[1]) == b
  {
  }

  lemma {:induction false} ByteOfHexRoundTrip(hi: char, lo: char)
    requires IsHexDigit(hi) && IsHexDigit(lo)
    ensures Hex2(ByteOfHex(hi, lo)) == [hi, lo]
  {
    var h, l := HexValue(hi), HexValue(lo);
    assert ((h << 4) | l) >> 4 == h && ((h << 4) | l) & 0xF == l;
  }

  /** A group reads back as the two bytes it was printed from. */
  lemma {:induction false} GroupRoundTrip(suffix: bv64, g: nat)
    requires 1 <= g <= 4
    ensures GroupBytes(Group(suffix, g)) == (AddressByte(suffix, 2 * g - 1), AddressByte(suffix, 2 * g))
  {
    HexPairRoundTrip(AddressByte(suffix, 2 * g - 1));
    HexPairRoundTrip(AddressByte(suffix, 2 * g));
  }

  /** Printing the two bytes a group spells gives the group back. */
  lemma {:induction false} GroupOnto(suffix: bv64, g: nat, grp: string)
    requires 1 <= g <= 4 && IsGroupText(grp)
    requires GroupBytes(grp) == (AddressByte(suffix, 2 * g - 1), AddressByte(suffix, 2 * g))
    ensures Group(suffix, g) == grp
  {
    ByteOfHexRoundTrip(grp[0], grp[1]);
    ByteOfHexRoundTrip(grp[2], grp[3]);
  }

  /** The prefix and four groups of digits joined by colons have the presentation shape, with the groups in place. */
  lemma JoinedText(g1: string, g2: string, g3: string, g4: string, t: string)
    requires IsGroupText(g1) && IsGroupText(g2) && IsGroupText(g3) && IsGroupText(g4)
    requires t == LINK_LOCAL_PREFIX + g1 + ":" + g2 + ":" + g3 + ":" + g4
    ensures IsLinkLocalText(t)
    ensures t[6..10] == g1 && t[11..15] == g2 && t[16..20] == g3 && t[21..] == g4
  {
  }

  /** A text of the presentation shape is the prefix and its four groups joined by colons. */
  lemma SplitText(t: string)
    requires IsLinkLocalText(t)
    ensures t == LINK_LOCAL_PREFIX + t[6..10] + ":" + t[11..15] + ":" + t[16..20] + ":" + t[21..]
  {
  }

  /** A rendered address has the presentation shape. */
  lemma LinkLocalTextShape(suffix: bv64)
    ensures IsLinkLocalText(LinkLocalText(suffix))
  {
    JoinedText(Group(suffix, 1), Group(suffix, 2), Group(suffix, 3), Group(suffix, 4), LinkLocalText(suffix));
  }

  /** Reading the rendered address back gives the suffix: rendering loses nothing. */
  lemma {:induction false} LinkLocalTextRoundTrip(suffix: bv64)
    ensures IsLinkLocalText(LinkLocalText(suffix))
    ensures SuffixOfText(LinkLocalText(suffix)) == suffix
  {
    var t := LinkLocalText(suffix);
    JoinedText(Group(suffix, 1), Group(suffix, 2), Group(suffix, 3), Group(suffix, 4), t);
    GroupRoundTrip(suffix, 1);
    GroupRoundTrip(suffix, 2);
    GroupRoundTrip(suffix, 3);
    GroupRoundTrip(suffix, 4);
    PackBytes(suffix);
  }

  /** Every text of the presentation shape is the rendering of the suffix it spells. */
  lemma {:induction false} LinkLocalTextOnto(t: string)
    requires IsLinkLocalText(t)
    ensures LinkLocalText(SuffixOfText(t)) == t
  {
    var s := SuffixOfText(t);
    GroupOnto(s, 1, t[6..10]);
    GroupOnto(s, 2, t[11..15]);
    GroupOnto(s, 3, t[16..20]);
    GroupOnto(s, 4, t[21..]);
    SplitText(t);
  }
}
