/** What the definition of SHA-1 computes, in terms of arithmetic and bits: the constants, the
    functions and the padding of FIPS PUB 180-1, and the example of its appendix A. */
module Sha1Laws {
  import opened Bytes
  import opened Sha1Spec

  /** The octets of a word, least significant first. */
  function Octets(x: word): (o: seq<bv8>) {
    [(x & 0xFF) as bv8, ((x >> 8) & 0xFF) as bv8, ((x >> 16) & 0xFF) as bv8, (x >> 24) as bv8]
  }

  /** The initial digest counts the digits up, down again, and skips through them. */
  lemma InitialDigits()
    ensures Octets(INITIAL.a) + Octets(INITIAL.b) == [0x01, 0x23, 0x45, 0x67, 0x89, 0xAB, 0xCD, 0xEF]
    ensures Octets(INITIAL.c) + Octets(INITIAL.d) == [0xFE, 0xDC, 0xBA, 0x98, 0x76, 0x54, 0x32, 0x10]
    ensures Octets(INITIAL.e) == [0xF0, 0xE1, 0xD2, 0xC3]
  {
  }

  function Radicand(t: nat): (n: nat) {
    if t < 20 then 2 else if t < 40 then 3 else if t < 60 then 5 else 10
  }

  /** The constants are the square roots of 2, 3, 5 and 10, to thirty bits. */
  lemma ConstantsAreRoots(t: nat)
    requires t < 80
    ensures var k := K(t) as int;
            k * k <= Radicand(t) * 0x1000_0000_0000_0000 < (k + 1) * (k + 1)
  {
  }

  /** The shifts rotate: what leaves at the top comes in at the bottom. */
  lemma ShiftsRotate(hi: word, lo: word)
    ensures hi < 2 && lo < 0x8000_0000 ==> S1(hi * 0x8000_0000 + lo) == lo * 2 + hi
    ensures hi < 32 && lo < 0x800_0000 ==> S5(hi * 0x800_0000 + lo) == lo * 32 + hi
    ensures hi < 0x4000_0000 && lo < 4 ==> S30(hi * 4 + lo) == lo * 0x4000_0000 + hi
  {
  }

  predicate Bit(x: word, i: bv6)
    requires i < 32
  {
    (x >> i) & 1 == 1
  }

  /** In the rounds of the first quarter b chooses between c and d, in those of the third the majority
      counts, in the others the parity, bit by bit. */
  lemma FunctionsByBits(t: nat, b: word, c: word, d: word, i: bv6)
    requires t < 80 && i < 32
    ensures var x, y, z := Bit(b, i), Bit(c, i), Bit(d, i);
            Bit(F(t, b, c, d), i) ==
            if t < 20 then (if x then y else z)
            else if 40 <= t < 60 then (x && y) || (y && z) || (x && z)
            else x == (y == z)
  {
    if t < 20 {
      ChoiceBit(b, c, d, i);
    } else if 40 <= t < 60 {
      MajorityBit(b, c, d, i);
    } else {
      ParityBit(b, c, d, i);
    }
  }

  lemma ChoiceBit(b: word, c: word, d: word, i: bv6)
    requires i < 32
    ensures Bit((b & c) | (!b & d), i) == if Bit(b, i) then Bit(c, i) else Bit(d, i)
  {
  }

  lemma MajorityBit(b: word, c: word, d: word, i: bv6)
    requires i < 32
    ensures Bit((b & c) | (b & d) | (c & d), i) ==
            ((Bit(b, i) && Bit(c, i)) || (Bit(c, i) && Bit(d, i)) || (Bit(b, i) && Bit(d, i)))
  {
  }

  lemma ParityBit(b: word, c: word, d: word, i: bv6)
    requires i < 32
    ensures Bit(b ^ c ^ d, i) == (Bit(b, i) == (Bit(c, i) == Bit(d, i)))
  {
  }

  /** The word with four digits to the base 256. */
  function By256(b0: bv8, b1: bv8, b2: bv8, b3: bv8): word {
    (b0 as bv32) * 0x100_0000 + (b1 as bv32) * 0x1_0000 + (b2 as bv32) * 0x100 + (b3 as bv32)
  }

  lemma PackedIsValue(b0: bv8, b1: bv8, b2: bv8, b3: bv8)
    ensures Packed(b0, b1, b2, b3) == By256(b0, b1, b2, b3)
  {
  }

  /** The first sixteen words of a block are the values of its octets, four by four. */
  lemma FirstWords(block: seq<byte>, t: nat)
    requires |block| == 64 && t < 16
    ensures W(block, t) == By256(block[4 * t] as bv8, block[4 * t + 1] as bv8, block[4 * t + 2] as bv8,
                                 block[4 * t + 3] as bv8)
  {
    hide Packed, By256;
    WFirst(block, t);
    PackedIsValue(block[t * 4] as bv8, block[t * 4 + 1] as bv8, block[t * 4 + 2] as bv8, block[t * 4 + 3] as bv8);
  }

  function Minus(x: word, y: word): word { x - y }

  function Difference(h: Hash, h': Hash): Hash {
    Hash(Minus(h'.a, h.a), Minus(h'.b, h.b), Minus(h'.c, h.c), Minus(h'.d, h.d), Minus(h'.e, h.e))
  }

  lemma AddedIsDifference(h: Hash, s: Hash)
    ensures Difference(h, Add(h, s)) == s
  {
    hide Minus, Plus;
    Cancels(h.a, s.a);
    Cancels(h.b, s.b);
    Cancels(h.c, s.c);
    Cancels(h.d, s.d);
    Cancels(h.e, s.e);
  }

  lemma Cancels(x: word, y: word)
    ensures Minus(Plus(x, y), x) == y
  {
    hide Minus;
    Unwraps(x, y);
  }

  lemma Unwraps(x: word, y: word)
    ensures Minus(x + y, x) == y
  {
  }

  /** The blocks are chained: the rounds of each start with the digest of those before, and what they
      make is what the digest changes by. */
  lemma BlocksAreChained(m: seq<byte>)
    requires |m| >= 64
    ensures var block, h := m[|m| - 64..], Blocks(m[..|m| - 64]);
            Rounds(block, h, 0) == h && Difference(h, Blocks(m)) == Rounds(block, h, 80)
    ensures Blocks([]) == INITIAL
  {
    hide Rounds, Add, Difference;
    var block, h := m[|m| - 64..], Blocks(m[..|m| - 64]);
    BlocksStep(m);
    NoBlocks();
    RoundsStep(block, h, 0);
    AddedIsDifference(h, Rounds(block, h, 80));
  }

  /** The value of octets to the base 256, most significant first. */
  function Value(o: seq<byte>): (v: nat) {
    if o == [] then 0 else Value(o[..|o| - 1]) * 256 + o[|o| - 1]
  }

  /** n octets of v, the most significant first. */
  function Digits(v: nat, n: nat): (o: seq<byte>) {
    if n == 0 then [] else Digits(v / 256, n - 1) + [v % 256]
  }

  function Power(n: nat): (p: nat) {
    if n == 0 then 1 else 256 * Power(n - 1)
  }

  lemma {:induction false} DigitsHaveValue(v: nat, n: nat)
    requires v < Power(n)
    ensures Value(Digits(v, n)) == v
  {
    if n > 0 { DigitsHaveValue(v / 256, n - 1); }
  }

  lemma {:induction false} DigitsAre(v: nat, n: nat, k: nat)
    requires k < n
    ensures |Digits(v, n)| == n && Digits(v, n)[k] == Octet(v, n - 1 - k)
  {
    if n > 1 { DigitsAre(v / 256, n - 1, if k < n - 1 then k else 0); }
  }

  lemma LengthIsDigits(bits: nat)
    requires bits < 0x1_0000_0000_0000_0000
    ensures LengthField(bits) == Digits(bits, 8) && bits < Power(8)
  {
    hide Octet;
    DigitsAre(bits, 8, 0);
    forall k | 0 <= k < 8
      ensures LengthField(bits)[k] == Digits(bits, 8)[k]
    {
      DigitsAre(bits, 8, k);
    }
    assert Power(8) == 0x1_0000_0000_0000_0000 by { PowerOfEight(); }
  }

  lemma PowerOfEight()
    ensures Power(8) == 0x1_0000_0000_0000_0000
  {
    assert Power(4) == 0x1_0000_0000;
  }

  /** Padding leaves the message, puts a one bit behind it, zeros, and the number of bits in the last
      eight octets, and fills the blocks with as few zeros as it can. */
  lemma PaddingIs(m: seq<byte>)
    requires 8 * |m| < 0x1_0000_0000_0000_0000
    ensures var p := Pad(m);
            && |p| % 64 == 0 && |m| + 9 <= |p| < |m| + 9 + 64
            && p[..|m|] == m && p[|m|] == 0x80
            && (forall k :: |m| < k < |p| - 8 ==> p[k] == 0)
            && Value(p[|p| - 8..]) == 8 * |m|
  {
    hide LengthField;
    PaddedLength(m);
    LengthIsDigits(8 * |m|);
    DigitsHaveValue(8 * |m|, 8);
    var p := Pad(m);
    assert p[|p| - 8..] == LengthField(8 * |m|);
  }

  // The example of appendix A

  const ABC: seq<byte> := [0x61, 0x62, 0x63]

  /** The words of the block that abc is padded to. */
  ghost predicate AbcWords(b: seq<byte>) {
    && |b| == 64 && W(b, 0) == 0x61626380 && W(b, 15) == 0x00000018
    && forall t :: 1 <= t < 15 ==> W(b, t) == 0
  }

  lemma AbcIsPadded()
    ensures |Pad(ABC)| == 64 && AbcWords(Pad(ABC))
  {
    hide W, Packed, Octet;
    var p := Pad(ABC);
    PaddedLength(ABC);
    AbcOctets();
    WFirst(p, 0);
    WFirst(p, 15);
    PackedLetters();
    forall t | 1 <= t < 15
      ensures W(p, t) == 0
    {
      WFirst(p, t);
      PackedNothing();
    }
  }

  lemma AbcOctets()
    ensures var p := Pad(ABC);
            && |p| == 64 && p[0] == 0x61 && p[1] == 0x62 && p[2] == 0x63 && p[3] == 0x80 && p[63] == 0x18
            && forall k :: 4 <= k < 63 ==> p[k] == 0
  {
    var f := LengthField(24);
    assert f[7] == Octet(24, 0) == 24;
    assert Octet(24, 1) == Octet(0, 0) == 0;
    NoOctets(0);
    forall k | 0 <= k < 7
      ensures f[k] == 0
    {
      NoOctets(6 - k);
      assert f[k] == Octet(24, 7 - k) == Octet(0, 6 - k);
    }
  }

  lemma {:induction false} NoOctets(i: nat)
    ensures Octet(0, i) == 0
  {
    if i > 0 { NoOctets(i - 1); }
  }

  lemma PackedLetters()
    ensures Packed(0x61 as bv8, 0x62 as bv8, 0x63 as bv8, 0x80 as bv8) == 0x61626380
    ensures Packed(0 as bv8, 0 as bv8, 0 as bv8, 0x18 as bv8) == 0x18
  {
  }

  lemma PackedNothing()
    ensures Packed(0 as bv8, 0 as bv8, 0 as bv8, 0 as bv8) == 0
  {
  }

  /** The word sequence of the example. */
  lemma Words0(b: seq<byte>)
    requires |b| == 64 && AbcWords(b)
    ensures W(b, 0) == 0x61626380 && W(b, 1) == 0x00000000 && W(b, 2) == 0x00000000 && W(b, 3) == 0x00000000
    ensures W(b, 4) == 0x00000000 && W(b, 5) == 0x00000000 && W(b, 6) == 0x00000000 && W(b, 7) == 0x00000000
  {
    hide W;
  }

  lemma Words8(b: seq<byte>)
    requires |b| == 64 && AbcWords(b)
    ensures W(b, 8) == 0x00000000 && W(b, 9) == 0x00000000 && W(b, 10) == 0x00000000 && W(b, 11) == 0x00000000
    ensures W(b, 12) == 0x00000000 && W(b, 13) == 0x00000000 && W(b, 14) == 0x00000000 && W(b, 15) == 0x00000018
  {
    hide W;
    Words0(b);
  }

  lemma Words16(b: seq<byte>)
    requires |b| == 64 && AbcWords(b)
    ensures W(b, 16) == 0xC2C4C700 && W(b, 17) == 0x00000000 && W(b, 18) == 0x00000030 && W(b, 19) == 0x85898E01
    ensures W(b, 20) == 0x00000000 && W(b, 21) == 0x00000060 && W(b, 22) == 0x0B131C03 && W(b, 23) == 0x00000030
  {
    hide W, AbcWords;
    Words8(b);
    Words0(b);
    WNext(b, 16); WNext(b, 17); WNext(b, 18); WNext(b, 19);
    WNext(b, 20); WNext(b, 21); WNext(b, 22); WNext(b, 23);
  }

  lemma Words24(b: seq<byte>)
    requires |b| == 64 && AbcWords(b)
    ensures W(b, 24) == 0x85898EC1 && W(b, 25) == 0x16263806 && W(b, 26) == 0x00000000 && W(b, 27) == 0x00000180
    ensures W(b, 28) == 0x2C4C700C && W(b, 29) == 0x000000F0 && W(b, 30) == 0x93AFB507 && W(b, 31) == 0x5898E048
  {
    hide W, AbcWords;
    Words16(b);
    Words8(b);
    WNext(b, 24); WNext(b, 25); WNext(b, 26); WNext(b, 27);
    WNext(b, 28); WNext(b, 29); WNext(b, 30); WNext(b, 31);
  }

  lemma Words32(b: seq<byte>)
    requires |b| == 64 && AbcWords(b)
    ensures W(b, 32) == 0x8E9A9202 && W(b, 33) == 0x00000600 && W(b, 34) == 0xB131C0F0 && W(b, 35) == 0x16263BC6
    ensures W(b, 36) == 0x4EBED41E && W(b, 37) == 0x626380A1 && W(b, 38) == 0x16263806 && W(b, 39) == 0x000018C0
  {
    hide W, AbcWords;
    Words24(b);
    Words16(b);
    WNext(b, 32); WNext(b, 33); WNext(b, 34); WNext(b, 35);
    WNext(b, 36); WNext(b, 37); WNext(b, 38); WNext(b, 39);
  }

  lemma Words40(b: seq<byte>)
    requires |b| == 64 && AbcWords(b)
    ensures W(b, 40) == 0xD2E138C4 && W(b, 41) == 0x00000F00 && W(b, 42) == 0x3AFB5079 && W(b, 43) == 0x898E04E5
    ensures W(b, 44) == 0xE2BA3C2B && W(b, 45) == 0x000060C0 && W(b, 46) == 0x053A37CD && W(b, 47) == 0x74458547
  {
    hide W, AbcWords;
    Words32(b);
    Words24(b);
    WNext(b, 40); WNext(b, 41); WNext(b, 42); WNext(b, 43);
    WNext(b, 44); WNext(b, 45); WNext(b, 46); WNext(b, 47);
  }

  lemma Words48(b: seq<byte>)
    requires |b| == 64 && AbcWords(b)
    ensures W(b, 48) == 0xDA9415ED && W(b, 49) == 0x26380A16 && W(b, 50) == 0x626383A1 && W(b, 51) == 0x4EBF54DE
    ensures W(b, 52) == 0x3835B44B && W(b, 53) == 0x0000F600 && W(b, 54) == 0x1E84C7A3 && W(b, 55) == 0x98E04D98
  {
    hide W, AbcWords;
    Words40(b);
    Words32(b);
    WNext(b, 48); WNext(b, 49); WNext(b, 50); WNext(b, 51);
    WNext(b, 52); WNext(b, 53); WNext(b, 54); WNext(b, 55);
  }

  lemma Words56(b: seq<byte>)
    requires |b| == 64 && AbcWords(b)
    ensures W(b, 56) == 0x651D16A0 && W(b, 57) == 0x62658CA1 && W(b, 58) == 0x458544D6 && W(b, 59) == 0x44584CB7
    ensures W(b, 60) == 0x7BA06619 && W(b, 61) == 0x6380AEA2 && W(b, 62) == 0x0AE55269 && W(b, 63) == 0x627B49A1
  {
    hide W, AbcWords;
    Words48(b);
    Words40(b);
    WNext(b, 56); WNext(b, 57); WNext(b, 58); WNext(b, 59);
    WNext(b, 60); WNext(b, 61); WNext(b, 62); WNext(b, 63);
  }

  lemma Words64(b: seq<byte>)
    requires |b| == 64 && AbcWords(b)
    ensures W(b, 64) == 0x7CD45C9D && W(b, 65) == 0x000F0000 && W(b, 66) == 0xFB50753A && W(b, 67) == 0xEC6765E8
    ensures W(b, 68) == 0xBA3C2BE2 && W(b, 69) == 0x0060C000 && W(b, 70) == 0x3A37CD05 && W(b, 71) == 0x458546F4
  {
    hide W, AbcWords;
    Words56(b);
    Words48(b);
    WNext(b, 64); WNext(b, 65); WNext(b, 66); WNext(b, 67);
    WNext(b, 68); WNext(b, 69); WNext(b, 70); WNext(b, 71);
  }

  lemma Words72(b: seq<byte>)
    requires |b| == 64 && AbcWords(b)
    ensures W(b, 72) == 0xB8599DD6 && W(b, 73) == 0x380A1A26 && W(b, 74) == 0x01E02203 && W(b, 75) == 0xE7CC3456
    ensures W(b, 76) == 0xE6E60B69 && W(b, 77) == 0x00F60A00 && W(b, 78) == 0x5795EF4F && W(b, 79) == 0x822E0879
  {
    hide W, AbcWords;
    Words64(b);
    Words56(b);
    WNext(b, 72); WNext(b, 73); WNext(b, 74); WNext(b, 75);
    WNext(b, 76); WNext(b, 77); WNext(b, 78); WNext(b, 79);
  }

  /** The five word buffers of the example, after every eight rounds. */
  lemma RoundsTo8(b: seq<byte>)
    requires |b| == 64 && AbcWords(b)
    ensures Rounds(b, INITIAL, 8) ==
            Hash(0x9E8C07D4, 0x993E30C1, 0x0FF1F290, 0xB3F52677, 0xF3763846)
  {
    hide W, Rounds, AbcWords;
    RoundsStep(b, INITIAL, 0);
    Words0(b);
    RoundsStep(b, INITIAL, 1); RoundsStep(b, INITIAL, 2); RoundsStep(b, INITIAL, 3); RoundsStep(b, INITIAL, 4);
    RoundsStep(b, INITIAL, 5); RoundsStep(b, INITIAL, 6); RoundsStep(b, INITIAL, 7); RoundsStep(b, INITIAL, 8);
  }

  lemma RoundsTo16(b: seq<byte>)
    requires |b| == 64 && AbcWords(b)
    ensures Rounds(b, INITIAL, 16) ==
            Hash(0x20BDD62F, 0x196BEE77, 0x644A3DA5, 0x1181ED99, 0x18C623F9)
  {
    hide W, Rounds, AbcWords;
    RoundsTo8(b);
    Words8(b);
    RoundsStep(b, INITIAL, 9); RoundsStep(b, INITIAL, 10); RoundsStep(b, INITIAL, 11); RoundsStep(b, INITIAL, 12);
    RoundsStep(b, INITIAL, 13); RoundsStep(b, INITIAL, 14); RoundsStep(b, INITIAL, 15); RoundsStep(b, INITIAL, 16);
  }

  lemma RoundsTo24(b: seq<byte>)
    requires |b| == 64 && AbcWords(b)
    ensures Rounds(b, INITIAL, 24) ==
            Hash(0xD541F12D, 0x21283486, 0x0CE88EFF, 0x868DEC32, 0x7F67875F)
  {
    hide W, Rounds, AbcWords;
    RoundsTo16(b);
    Words16(b);
    RoundsStep(b, INITIAL, 17); RoundsStep(b, INITIAL, 18); RoundsStep(b, INITIAL, 19); RoundsStep(b, INITIAL, 20);
    RoundsStep(b, INITIAL, 21); RoundsStep(b, INITIAL, 22); RoundsStep(b, INITIAL, 23); RoundsStep(b, INITIAL, 24);
  }

  lemma RoundsTo32(b: seq<byte>)
    requires |b| == 64 && AbcWords(b)
    ensures Rounds(b, INITIAL, 32) ==
            Hash(0x3B845D33, 0x1267B407, 0x717EEBD7, 0xA0DC2D4B, 0xD2AA1365)
  {
    hide W, Rounds, AbcWords;
    RoundsTo24(b);
    Words24(b);
    RoundsStep(b, INITIAL, 25); RoundsStep(b, INITIAL, 26); RoundsStep(b, INITIAL, 27); RoundsStep(b, INITIAL, 28);
    RoundsStep(b, INITIAL, 29); RoundsStep(b, INITIAL, 30); RoundsStep(b, INITIAL, 31); RoundsStep(b, INITIAL, 32);
  }

  lemma RoundsTo40(b: seq<byte>)
    requires |b| == 64 && AbcWords(b)
    ensures Rounds(b, INITIAL, 40) ==
            Hash(0x32DE1CBA, 0x4C986405, 0xF718E5CF, 0x03D447F6, 0xF72EEC32)
  {
    hide W, Rounds, AbcWords;
    RoundsTo32(b);
    Words32(b);
    RoundsStep(b, INITIAL, 33); RoundsStep(b, INITIAL, 34); RoundsStep(b, INITIAL, 35); RoundsStep(b, INITIAL, 36);
    RoundsStep(b, INITIAL, 37); RoundsStep(b, INITIAL, 38); RoundsStep(b, INITIAL, 39); RoundsStep(b, INITIAL, 40);
  }

  lemma RoundsTo48(b: seq<byte>)
    requires |b| == 64 && AbcWords(b)
    ensures Rounds(b, INITIAL, 48) ==
            Hash(0xBEAD02CA, 0xA01B846C, 0x8714787C, 0x503CA382, 0xFB86C6AB)
  {
    hide W, Rounds, AbcWords;
    RoundsTo40(b);
    Words40(b);
    RoundsStep(b, INITIAL, 41); RoundsStep(b, INITIAL, 42); RoundsStep(b, INITIAL, 43); RoundsStep(b, INITIAL, 44);
    RoundsStep(b, INITIAL, 45); RoundsStep(b, INITIAL, 46); RoundsStep(b, INITIAL, 47); RoundsStep(b, INITIAL, 48);
  }

  lemma RoundsTo56(b: seq<byte>)
    requires |b| == 64 && AbcWords(b)
    ensures Rounds(b, INITIAL, 56) ==
            Hash(0x5E6456AF, 0x7B71F76D, 0x09FA7C76, 0x792410DB, 0x8E11EB59)
  {
    hide W, Rounds, AbcWords;
    RoundsTo48(b);
    Words48(b);
    RoundsStep(b, INITIAL, 49); RoundsStep(b, INITIAL, 50); RoundsStep(b, INITIAL, 51); RoundsStep(b, INITIAL, 52);
    RoundsStep(b, INITIAL, 53); RoundsStep(b, INITIAL, 54); RoundsStep(b, INITIAL, 55); RoundsStep(b, INITIAL, 56);
  }

  lemma RoundsTo64(b: seq<byte>)
    requires |b| == 64 && AbcWords(b)
    ensures Rounds(b, INITIAL, 64) ==
            Hash(0x6B61C9E1, 0xB66C020B, 0x9523272C, 0xF5D5B051, 0x8FD4B796)
  {
    hide W, Rounds, AbcWords;
    RoundsTo56(b);
    Words56(b);
    RoundsStep(b, INITIAL, 57); RoundsStep(b, INITIAL, 58); RoundsStep(b, INITIAL, 59); RoundsStep(b, INITIAL, 60);
    RoundsStep(b, INITIAL, 61); RoundsStep(b, INITIAL, 62); RoundsStep(b, INITIAL, 63); RoundsStep(b, INITIAL, 64);
  }

  lemma RoundsTo72(b: seq<byte>)
    requires |b| == 64 && AbcWords(b)
    ensures Rounds(b, INITIAL, 72) ==
            Hash(0x39859DE7, 0xC199F8C7, 0x8FC96230, 0x125C24F0, 0xDE37534A)
  {
    hide W, Rounds, AbcWords;
    RoundsTo64(b);
    Words64(b);
    RoundsStep(b, INITIAL, 65); RoundsStep(b, INITIAL, 66); RoundsStep(b, INITIAL, 67); RoundsStep(b, INITIAL, 68);
    RoundsStep(b, INITIAL, 69); RoundsStep(b, INITIAL, 70); RoundsStep(b, INITIAL, 71); RoundsStep(b, INITIAL, 72);
  }

  lemma RoundsTo80(b: seq<byte>)
    requires |b| == 64 && AbcWords(b)
    ensures Rounds(b, INITIAL, 80) ==
            Hash(0x42541B35, 0x5738D5E1, 0x21834873, 0x681E6DF6, 0xD8FDF6AD)
  {
    hide W, Rounds, AbcWords;
    RoundsTo72(b);
    Words72(b);
    RoundsStep(b, INITIAL, 73); RoundsStep(b, INITIAL, 74); RoundsStep(b, INITIAL, 75); RoundsStep(b, INITIAL, 76);
    RoundsStep(b, INITIAL, 77); RoundsStep(b, INITIAL, 78); RoundsStep(b, INITIAL, 79); RoundsStep(b, INITIAL, 80);
  }

  /** The digest of abc is that of the standard. */
  lemma AbcDigest()
    ensures Sha1(ABC) == Hash(0xA9993E36, 0x4706816A, 0xBA3E2571, 0x7850C26C, 0x9CD0D89D)
  {
    hide Rounds, W, Pad;
    var p := Pad(ABC);
    AbcIsPadded();
    RoundsTo80(p);
    BlocksStep(p);
    NoBlocks();
    assert p[..0] == [] && p[0..] == p;
    AbcAdded();
  }

  lemma AbcAdded()
    ensures Add(INITIAL, Hash(0x42541B35, 0x5738D5E1, 0x21834873, 0x681E6DF6, 0xD8FDF6AD))
            == Hash(0xA9993E36, 0x4706816A, 0xBA3E2571, 0x7850C26C, 0x9CD0D89D)
  {
  }
}
