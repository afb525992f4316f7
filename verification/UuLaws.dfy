/** What the uu codec means: the codes in their order, the places of lines and groups, and what any
    line decodes to. */
module UuLaws {
  import opened Bytes
  import opened Digits
  import opened UuCode

  /** The codes: a grave accent for nothing, then the characters from ! to _ in their order; a space is
      read as nothing as well, and no other character has a six-bit value. Of those, white space and the
      character in front of the space leave something of their line. */
  lemma CodesAre(v: nat, w: nat, c: byte)
    requires v < 64 && w < 64
    ensures EncodeByte(0) == '`' as int && EncodeByte(1) == '!' as int && EncodeByte(63) == '_' as int
    ensures 1 <= v < w ==> EncodeByte(v) < EncodeByte(w)
    ensures DecodeByte(c) == 0 <==> c == ' ' as int || c == '`' as int
    ensures v > 0 ==> (DecodeByte(c) == v <==> c == EncodeByte(v))
    ensures SixBits(DecodeByte(c)) <==> ' ' as int <= c <= '`' as int
    ensures Hopeless(c) <==> !SixBits(DecodeByte(c)) && c !in {9, 10, 11, 12, 13, 31}
  {
  }

  /** Four codes of e, none of them a space, spell x to the base 64, most significant first. */
  predicate SpellsAt(e: seq<byte>, q: nat, x: nat) {
    && q + 4 <= |e| && (forall k :: q <= k < q + 4 ==> SixBits(DecodeByte(e[k])) && e[k] != ' ' as int)
    && By64(DecodeByte(e[q]), DecodeByte(e[q + 1]), DecodeByte(e[q + 2]), DecodeByte(e[q + 3])) == x
  }

  lemma CodeIsNoSpace(v: nat)
    requires v < 64
    ensures DecodeByte(EncodeByte(v)) == v && EncodeByte(v) != ' ' as int
  {
  }

  /** A group spells the number whose digits to the base 256 are its three octets. */
  lemma GroupSpells(b0: byte, b1: byte, b2: byte)
    ensures SpellsAt(Group(b0, b1, b2), 0, By256(b0, b1, b2))
  {
    hide EncodeByte, DecodeByte, By64, By256;
    CodeIsNoSpace(b0 / 4);
    CodeIsNoSpace(b0 % 4 * 16 + b1 / 16);
    CodeIsNoSpace(b1 % 16 * 4 + b2 / 64);
    CodeIsNoSpace(b2 % 64);
    SixBitDigits(b0, b1, b2);
  }

  lemma SixBitDigits(b0: byte, b1: byte, b2: byte)
    ensures By64(b0 / 4, b0 % 4 * 16 + b1 / 16, b1 % 16 * 4 + b2 / 64, b2 % 64) == By256(b0, b1, b2)
  {
  }

  /** Group g of those that begin at j. */
  lemma {:induction false} GroupAt(s: seq<byte>, j: nat, jm: nat, g: nat)
    requires jm <= |s|
    ensures var r := Groups(s, j, jm);
            && |r| == (if j >= jm then 0 else 4 * ((jm - j + 2) / 3))
            && (j + 3 * g < jm ==>
                  var b0, b1, b2 := At(s, j + 3 * g, 0), At(s, j + 3 * g + 1, 0), At(s, j + 3 * g + 2, 0);
                  4 * g + 4 <= |r| && r[4 * g..4 * g + 4] == Group(b0, b1, b2))
    decreases jm - j
  {
    hide Group, At;
    if j < jm {
      GroupAt(s, j + 3, jm, if g > 0 then g - 1 else 0);
      var first, rest := Group(At(s, j, 0), At(s, j + 1, 0), At(s, j + 2, 0)), Groups(s, j + 3, jm);
      if g > 0 {
        SliceBehind(first, rest, 4 * g - 4);
      } else {
        assert (first + rest)[..4] == first;
      }
    }
  }

  lemma SliceBehind(first: seq<byte>, rest: seq<byte>, k: nat)
    requires |first| == 4
    ensures k + 4 <= |rest| ==> (first + rest)[k + 4..k + 8] == rest[k..k + 4]
  {
  }

  /** The octets of the line at i. */
  function OnLine(s: seq<byte>, i: nat): (n: nat)
    requires i < |s|
  {
    if |s| - i < 45 then |s| - i else 45
  }

  /** The line at i on its own: the code of its number of octets, its groups, its end. */
  lemma LinePlaces(s: seq<byte>, i: nat, g: nat)
    requires i < |s|
    ensures var r, n := Encoding(s, i), OnLine(s, i);
            var end := 1 + 4 * ((n + 2) / 3);
            && end + 2 <= |r| && (i + 45 >= |s| ==> |r| == end + 2) && r[end + 2..] == Encoding(s, i + 45)
            && r[0] == EncodeByte(n) && r[end] == CR && r[end + 1] == LF
            && (3 * g < n ==>
                  var b := i + 3 * g;
                  && 4 * g + 5 <= end
                  && SpellsAt(r, 4 * g + 1, By256(At(s, b, 0), At(s, b + 1, 0), At(s, b + 2, 0))))
  {
    hide Encoding, Groups, Group, SpellsAt, By256, At, EncodeByte;
    var jm := LineEnd(s, i);
    var gs := Groups(s, i, jm);
    GroupAt(s, i, jm, g);
    LineParts(s, i);
    LineSplits(Encoding(s, i), EncodeByte(jm - i), gs, Encoding(s, i + UU_MAX_LINELEN));
    if 3 * g < jm - i {
      var b := i + 3 * g;
      var b0, b1, b2 := At(s, b, 0), At(s, b + 1, 0), At(s, b + 2, 0);
      GroupSpells(b0, b1, b2);
      assert Encoding(s, i)[1..1 + |gs|][4 * g..4 * g + 4] == gs[4 * g..4 * g + 4];
      SpellsWithin(Encoding(s, i), 4 * g + 1, Group(b0, b1, b2), By256(b0, b1, b2));
    }
  }

  /** The encoding by its places: line m begins 63 octets behind the line before and has 45 octets of the
      input, the last line what is left; the code of their number comes first, then each group of three
      spells its number, with zeros behind the end of the input, then a carriage return and a line feed. */
  lemma EncodingPlaces(s: seq<byte>, m: nat, g: nat)
    requires 45 * m < |s|
    ensures var e, i, p, n := Encoding(s, 0), 45 * m, 63 * m, OnLine(s, 45 * m);
            var end := p + 1 + 4 * ((n + 2) / 3);
            && end + 2 <= |e| && (i + 45 >= |s| ==> |e| == end + 2)
            && e[p] == EncodeByte(n) && e[end] == CR && e[end + 1] == LF
            && (3 * g < n ==>
                  var b := i + 3 * g;
                  && p + 4 * g + 5 <= end
                  && SpellsAt(e, p + 4 * g + 1, By256(At(s, b, 0), At(s, b + 1, 0), At(s, b + 2, 0))))
  {
    hide Encoding, SpellsAt, By256, At, EncodeByte, OnLine;
    var e, p, r, b := Encoding(s, 0), 63 * m, Encoding(s, 45 * m), 45 * m + 3 * g;
    LineStart(s, m);
    LinePlaces(s, 45 * m, g);
    SamePlaces(e, p, r);
    if 3 * g < OnLine(s, 45 * m) {
      SpellsFurther(e, p, r, 4 * g + 1, By256(At(s, b, 0), At(s, b + 1, 0), At(s, b + 2, 0)));
    }
  }

  lemma SpellsFurther(e: seq<byte>, p: nat, r: seq<byte>, q: nat, x: nat)
    requires p <= |e| && e[p..] == r && SpellsAt(r, q, x)
    ensures SpellsAt(e, p + q, x)
  {
    SamePlaces(e, p, r);
    assert forall k :: p + q <= k < p + q + 4 ==> e[k] == r[k - p];
  }

  lemma SamePlaces(e: seq<byte>, p: nat, r: seq<byte>)
    requires p <= |e| && e[p..] == r
    ensures |e| == p + |r| && forall k :: 0 <= k < |r| ==> r[k] == e[p + k]
  {
  }

  lemma SpellsWithin(e: seq<byte>, q: nat, g: seq<byte>, x: nat)
    requires q + 4 <= |e| && |g| == 4 && e[q..q + 4] == g && SpellsAt(g, 0, x)
    ensures SpellsAt(e, q, x)
  {
    assert forall k :: 0 <= k < 4 ==> g[k] == e[q + k];
  }

  lemma LineSplits(r: seq<byte>, c: byte, gs: seq<byte>, rest: seq<byte>)
    requires r == [c] + gs + [CR, LF] + rest
    ensures |r| == |gs| + 3 + |rest| && r[0] == c && r[1..1 + |gs|] == gs
    ensures r[1 + |gs|] == CR && r[2 + |gs|] == LF && r[3 + |gs|..] == rest
  {
  }

  lemma LineParts(s: seq<byte>, i: nat)
    requires i < |s|
    ensures Encoding(s, i) == [EncodeByte(LineEnd(s, i) - i)] + Groups(s, i, LineEnd(s, i)) + [CR, LF]
                              + Encoding(s, i + UU_MAX_LINELEN)
    ensures i + UU_MAX_LINELEN >= |s| ==> Encoding(s, i + UU_MAX_LINELEN) == []
  {
  }

  lemma {:induction false} LineStart(s: seq<byte>, m: nat)
    requires 45 * m < |s|
    ensures 63 * m <= |Encoding(s, 0)| && Encoding(s, 0)[63 * m..] == Encoding(s, 45 * m)
  {
    hide Encoding, SpellsAt;
    if m > 0 {
      LineStart(s, m - 1);
      LinePlaces(s, 45 * (m - 1), 0);
      SuffixOfSuffix(Encoding(s, 0), 63 * (m - 1), 63 * m);
    }
  }

  /** The code k of a line, behind the one for its length, and whether one of those from a to b - 1 is
      out of the six-bit range, or hopeless. */
  function Code(s: seq<byte>, k: nat): (c: byte) {
    At(s, 1 + k, 31)
  }

  predicate Odd(s: seq<byte>, a: nat, b: nat) {
    exists k :: a <= k < b && !SixBits(DecodeByte(Code(s, k)))
  }

  predicate AnyHopeless(s: seq<byte>, a: nat, b: nat) {
    exists k :: a <= k < b && Hopeless(Code(s, k))
  }

  /** How many codes need octets take. */
  function Used(need: nat): (n: nat) {
    4 * (need / 3) + if need % 3 == 0 then 0 else need % 3 + 1
  }

  /** A line of need octets leaves nothing when its last group does not begin within it, or one of the
      codes it needs is hopeless. */
  predicate Lost(s: seq<byte>, need: nat, a: nat) {
    (Used(need) > a && 1 + 4 * ((need - 1) / 3) >= |s|) || AnyHopeless(s, a, Used(need))
  }

  /** The value a code is taken for: zero if it is out of range, and the first two codes of a group only
      count together. */
  function CodeValue(s: seq<byte>, k: nat): (v: nat)
    ensures v < 64
  {
    var v := DecodeByte(Code(s, k));
    var other := if k % 4 == 0 then DecodeByte(Code(s, k + 1))
                 else if k % 4 == 1 then DecodeByte(Code(s, k - 1)) else 0;
    if SixBits(v) && SixBits(other) then v else 0
  }

  function OctetAt(s: seq<byte>, j: nat): (b: byte) {
    var g := j / 3 * 4;
    Octet(By64(CodeValue(s, g), CodeValue(s, g + 1), CodeValue(s, g + 2), CodeValue(s, g + 3)), j % 3)
  }

  /** The first codes of group g that are read when need octets are wanted. */
  function GroupEnd(need: nat, g: nat): (n: nat)
    requires 3 * g < need
  {
    if need >= 3 * g + 3 then 4 * g + 4 else 4 * g + need - 3 * g + 1
  }

  /** One turn of the loop. */
  lemma OneGroup(s: seq<byte>, g: nat, need: nat, acc: seq<byte>, bad: bool)
    requires |acc| == 3 * g < need
    ensures var a, end := 4 * g, GroupEnd(need, g);
            var o, bad' := [OctetAt(s, 3 * g), OctetAt(s, 3 * g + 1), OctetAt(s, 3 * g + 2)], bad || Odd(s, a, end);
            LineGroups(s, 1 + a, need, acc, bad) ==
            if 1 + a >= |s| || AnyHopeless(s, a, end) then Result([], true)
            else if need >= 3 * g + 3 then LineGroups(s, 5 + a, need, acc + o, bad')
            else Result(acc + o[..need - 3 * g], bad')
  {
    hide At, DecodeByte, Hopeless, ToByte, By64, Octet, OctetAt, CodeValue, Odd, AnyHopeless;
    var a := 4 * g;
    OctetDigits(CodeValue(s, a), CodeValue(s, a + 1), CodeValue(s, a + 2), CodeValue(s, a + 3));
    GroupOctets(s, g);
    GroupCodes(s, g, GroupEnd(need, g));
    GroupValues(s, g);
  }

  lemma GroupValues(s: seq<byte>, g: nat)
    ensures var a := 4 * g;
            var d0, d1, d2, d3 := Code(s, a), Code(s, a + 1), Code(s, a + 2), Code(s, a + 3);
            var ok := SixBits(DecodeByte(d0)) && SixBits(DecodeByte(d1));
            && CodeValue(s, a) == (if ok then DecodeByte(d0) else 0)
            && CodeValue(s, a + 1) == (if ok then DecodeByte(d1) else 0)
            && CodeValue(s, a + 2) == (if SixBits(DecodeByte(d2)) then DecodeByte(d2) else 0)
            && CodeValue(s, a + 3) == (if SixBits(DecodeByte(d3)) then DecodeByte(d3) else 0)
            && (Hopeless(d0) ==> !SixBits(DecodeByte(d0))) && (Hopeless(d1) ==> !SixBits(DecodeByte(d1)))
            && (Hopeless(d2) ==> !SixBits(DecodeByte(d2))) && (Hopeless(d3) ==> !SixBits(DecodeByte(d3)))
  {
    hide Code;
  }

  lemma GroupOctets(s: seq<byte>, g: nat)
    ensures var a := 4 * g;
            var x := By64(CodeValue(s, a), CodeValue(s, a + 1), CodeValue(s, a + 2), CodeValue(s, a + 3));
            && OctetAt(s, 3 * g) == Octet(x, 0) && OctetAt(s, 3 * g + 1) == Octet(x, 1)
            && OctetAt(s, 3 * g + 2) == Octet(x, 2)
  {
    hide CodeValue, By64, Octet;
  }

  /** What is odd or hopeless among up to four codes. */
  lemma GroupCodes(s: seq<byte>, g: nat, end: nat)
    requires 4 * g + 2 <= end <= 4 * g + 4
    ensures var a := 4 * g;
            var d0, d1, d2, d3 := Code(s, a), Code(s, a + 1), Code(s, a + 2), Code(s, a + 3);
            && (AnyHopeless(s, a, end) <==>
                Hopeless(d0) || Hopeless(d1) || (end > a + 2 && Hopeless(d2)) || (end > a + 3 && Hopeless(d3)))
            && (Odd(s, a, end) <==>
                || !SixBits(DecodeByte(d0)) || !SixBits(DecodeByte(d1))
                || (end > a + 2 && !SixBits(DecodeByte(d2))) || (end > a + 3 && !SixBits(DecodeByte(d3))))
  {
  }

  lemma UsedFrom(need: nat, g: nat)
    requires 3 * g < need
    ensures var end := GroupEnd(need, g);
            if need >= 3 * g + 3 then 4 * g + 4 == end <= Used(need) && (end < Used(need) <==> need > 3 * g + 3)
            else end == Used(need)
    ensures 4 * g < GroupEnd(need, g)
    ensures need <= 3 * g + 3 ==> (need - 1) / 3 == g
    ensures (need - 1) / 3 >= g
  {
    if need < 3 * g + 3 {
      assert need / 3 == g;
    }
  }

  lemma LostFrom(s: seq<byte>, need: nat, g: nat)
    requires 3 * g < need
    ensures var a, end := 4 * g, GroupEnd(need, g);
            && (Lost(s, need, a) <==>
                || 1 + a >= |s| || AnyHopeless(s, a, end) || (need >= 3 * g + 3 && Lost(s, need, a + 4)))
            && (Odd(s, a, Used(need)) <==> Odd(s, a, end) || (need >= 3 * g + 3 && Odd(s, a + 4, Used(need))))
  {
    hide Odd, AnyHopeless, Used, GroupEnd;
    UsedFrom(need, g);
    RangeSplits(s, 4 * g, GroupEnd(need, g), Used(need));
    if need <= 3 * g + 3 {
      NothingIn(s, GroupEnd(need, g), Used(need));
    }
  }

  lemma RangeSplits(s: seq<byte>, a: nat, b: nat, c: nat)
    requires a <= b <= c
    ensures AnyHopeless(s, a, c) <==> AnyHopeless(s, a, b) || AnyHopeless(s, b, c)
    ensures Odd(s, a, c) <==> Odd(s, a, b) || Odd(s, b, c)
  {
    hide Hopeless, SixBits, DecodeByte, Code;
  }

  lemma NothingIn(s: seq<byte>, a: nat, b: nat)
    requires b <= a
    ensures !AnyHopeless(s, a, b) && !Odd(s, a, b)
  {
  }

  /** The groups from g on. */
  lemma {:induction false} GroupsAre(s: seq<byte>, g: nat, need: nat, acc: seq<byte>, bad: bool)
    requires |acc| == 3 * g <= need
    ensures var r := LineGroups(s, 1 + 4 * g, need, acc, bad);
            if Lost(s, need, 4 * g) then r == Result([], true)
            else
              && |r.octets| == need && r.octets[..3 * g] == acc && r.bad == (bad || Odd(s, 4 * g, Used(need)))
              && forall j {:trigger r.octets[j]} :: 3 * g <= j < need ==> r.octets[j] == OctetAt(s, j)
    decreases need - 3 * g
  {
    hide LineGroups, Lost, Odd, AnyHopeless, OctetAt, Used;
    if |acc| == need {
      GroupsEnd(s, g, need, acc, bad);
    } else {
      var end := GroupEnd(need, g);
      var o := [OctetAt(s, 3 * g), OctetAt(s, 3 * g + 1), OctetAt(s, 3 * g + 2)];
      OneGroup(s, g, need, acc, bad);
      LostFrom(s, need, g);
      if need >= 3 * g + 3 {
        GroupsAre(s, g + 1, need, acc + o, bad || Odd(s, 4 * g, end));
        var r := LineGroups(s, 5 + 4 * g, need, acc + o, bad || Odd(s, 4 * g, end));
        if !Lost(s, need, 4 * g + 4) {
          assert r.octets[..3 * g] == r.octets[..3 * g + 3][..3 * g] == acc;
          assert forall j :: 3 * g <= j < 3 * g + 3 ==> r.octets[j] == r.octets[..3 * g + 3][j] == o[j - 3 * g];
        }
      }
    }
  }

  lemma GroupsEnd(s: seq<byte>, g: nat, need: nat, acc: seq<byte>, bad: bool)
    requires |acc| == 3 * g == need
    ensures LineGroups(s, 1 + 4 * g, need, acc, bad) == Result(acc, bad)
    ensures !Lost(s, need, 4 * g) && !Odd(s, 4 * g, Used(need))
  {
  }

  /** What any line decodes to: a line whose first code is no number up to 45 is bad and leaves nothing;
      any other is bad if one of the codes it needs is out of range, codes behind its end among them, and
      leaves as many octets as it announces, each a digit of its group, unless it is lost. */
  lemma LineResultIs(s: seq<byte>)
    requires s != []
    ensures var need, r := DecodeByte(s[0]), LineResult(s);
            if !(0 <= need <= 45) then r == Result([], true)
            else
              && (r.bad <==> Odd(s, 0, Used(need)))
              && (if Lost(s, need, 0) then r.octets == []
                  else |r.octets| == need && forall j :: 0 <= j < need ==> r.octets[j] == OctetAt(s, j))
  {
    hide LineGroups, OctetAt;
    var need := DecodeByte(s[0]);
    if 0 <= need <= 45 {
      GroupsAre(s, 0, need, [], false);
      if Lost(s, need, 0) {
        LostIsOdd(s, need);
      }
    }
  }

  lemma LostIsOdd(s: seq<byte>, need: nat)
    requires Lost(s, need, 0)
    ensures Odd(s, 0, Used(need))
  {
    hide SixBits, DecodeByte, Hopeless, Used;
    if AnyHopeless(s, 0, Used(need)) {
      var k :| 0 <= k < Used(need) && Hopeless(Code(s, k));
      HopelessIsOdd(Code(s, k));
    } else {
      var k := 4 * ((need - 1) / 3);
      UsedFrom(need, (need - 1) / 3);
      HopelessIsOdd(31);
      assert Code(s, k) == 31;
    }
  }

  lemma HopelessIsOdd(d: byte)
    ensures Hopeless(d) || d == 31 ==> !SixBits(DecodeByte(d))
  {
  }
}
