/** What the base64 codec means, said by the table of symbols, by digits and by positions. */
module Base64Laws {
  import opened Bytes
  import opened Digits
  import opened Base64

  const UPPER := "ABCDEFGHIJKLMNOPQRSTUVWXYZ"
  const LOWER := "abcdefghijklmnopqrstuvwxyz"
  const DECIMAL := "0123456789"
  const TABLE := UPPER + LOWER + DECIMAL + "+/"

  lemma OneSymbolEach(v: nat, c: byte)
    requires v < 64
    ensures DecodeSymbol(c) == v <==> c == Symbol(v)
  {
  }

  /** The symbols are those of the table, in its order, and the decoder reads them back by it. */
  lemma SymbolsAreTable(v: nat, c: byte)
    requires v < 64
    ensures |TABLE| == 64 && Symbol(v) == TABLE[v] as int && PAD == '=' as int
    ensures DecodeSymbol(c) == v <==> c == TABLE[v] as int
  {
    hide DecodeSymbol;
    OneSymbolEach(v, c);
    if v < 26 {
      assert TABLE[v] == UPPER[v];
    } else if v < 52 {
      assert TABLE[v] == LOWER[v - 26];
    } else if v < 62 {
      assert TABLE[v] == DECIMAL[v - 52];
    } else {
      assert TABLE[v] == "+/"[v - 62];
    }
  }

  /** Four symbols of e spell x to the base 64, most significant first. */
  predicate SpellsAt(e: seq<byte>, q: nat, x: nat) {
    && q + 4 <= |e| && (forall k :: q <= k < q + 4 ==> 0 <= DecodeSymbol(e[k]) < 64)
    && By64(DecodeSymbol(e[q]), DecodeSymbol(e[q + 1]), DecodeSymbol(e[q + 2]), DecodeSymbol(e[q + 3])) == x
  }

  /** The six-bit values of three octets. */
  lemma SixBitDigits(b0: byte, b1: byte, b2: byte)
    ensures By64(b0 / 4, Six(b0 as int * 16 + b1 / 16), Six(b1 as int * 4 + b2 / 64), Six(b2)) == By256(b0, b1, b2)
  {
    FirstOctet(b0, b1);
    SecondOctet(b0 % 4, b1, b2);
  }

  /** A group spells the number whose digits to the base 256 are its three octets. */
  lemma GroupSpells(b0: byte, b1: byte, b2: byte)
    ensures SpellsAt(Group(b0, b1, b2), 0, By256(b0, b1, b2))
  {
    hide Symbol, DecodeSymbol, Six, By64, By256;
    SixBitDigits(b0, b1, b2);
    SymbolDecodes(b0 / 4);
    SymbolDecodes(Six(b0 as int * 16 + b1 / 16));
    SymbolDecodes(Six(b1 as int * 4 + b2 / 64));
    SymbolDecodes(Six(b2));
  }

  /** So do the last octets, with zeros for the missing ones, once their padding is read as zeros; two
      octets leave one padding, one octet leaves two. */
  lemma LastSpells(t: seq<byte>)
    requires 1 <= |t| <= 2
    ensures var g, zero := Last(t), Symbol(0);
            && |g| == 4 && g[3] == PAD && (g[2] == PAD <==> |t| == 1) && g[0] != PAD && g[1] != PAD
            && SpellsAt([g[0], g[1], if |t| == 1 then zero else g[2], zero], 0,
                        By256(t[0], if |t| == 1 then 0 else t[1], 0))
  {
    hide Symbol, DecodeSymbol, By64, By256;
    var b1: byte := if |t| == 1 then 0 else t[1];
    SixBitDigits(t[0], b1, 0);
    SymbolDecodes(0);
    SymbolDecodes(t[0] / 4);
    SymbolDecodes(Six(t[0] as int * 16 + b1 / 16));
    SymbolDecodes(Six(b1 as int * 4));
  }

  /** The encoding from offset i on is the last part of the whole. */
  lemma {:induction false} EncodingSuffix(s: seq<byte>, i: nat)
    requires i <= |s| && i % 3 == 0
    ensures var e, r := Encoding(s, 0), Encoding(s, i);
            |r| <= |e| && e[|e| - |r|..] == r
  {
    hide Encoding;
    if i > 0 {
      EncodingSuffix(s, i - 3);
      NextSuffix(s, i - 3);
    }
  }

  lemma NextSuffix(s: seq<byte>, i: nat)
    requires i + 3 <= |s|
    ensures var e, r := Encoding(s, i), Encoding(s, i + 3);
            |r| <= |e| && e[|e| - |r|..] == r
  {
  }

  /** Where the symbols of group k begin, a line break in front of every nineteenth. */
  function Place(k: nat): (p: nat) {
    4 * k + 2 * (k / 19)
  }

  /** Nineteen groups make a line. */
  predicate BreakBefore(k: nat) {
    k > 0 && k % 19 == 0
  }

  lemma WholeGroups(n: nat, k: nat)
    requires 3 * k <= n
    ensures (n - 3 * k + 2) / 3 == (n + 2) / 3 - k
  {
  }

  lemma PlaceIs(n: nat, k: nat)
    requires 3 * k <= n
    ensures |Break(3 * k)| == 2 <==> BreakBefore(k)
    ensures 2 * Breaks(n, 0) - 2 * Breaks(n, 3 * k) + |Break(3 * k)| == Place(k) - 4 * k
  {
    ByFiftySeven(k / 19, 3 * (k % 19));
    ByFiftySeven(0, 0);
  }

  /** The encoding from offset i on: the line break, if it is time for one, then the group at i or the last
      octets. */
  lemma EncodingHere(s: seq<byte>, i: nat)
    requires i <= |s|
    ensures var r, b := Encoding(s, i), |Break(i)|;
            && b <= |r| && (b == 2 ==> r[0] == CR && r[1] == LF)
            && (i + 2 < |s| ==> SpellsAt(r, b, By256(s[i], s[i + 1], s[i + 2])))
            && (i + 2 >= |s| ==> r[b..] == Last(s[i..])) && (i == |s| ==> b == |r|)
  {
    hide SpellsAt, By256, Group;
    if i + 2 < |s| {
      var g := Group(s[i], s[i + 1], s[i + 2]);
      GroupSpells(s[i], s[i + 1], s[i + 2]);
      GroupLength(s[i], s[i + 1], s[i + 2]);
      SpellsWithin(Break(i), g, Encoding(s, i + 3), By256(s[i], s[i + 1], s[i + 2]));
      assert Break(i) + g + Encoding(s, i + 3) == Encoding(s, i);
    }
  }

  lemma GroupLength(b0: byte, b1: byte, b2: byte)
    ensures |Group(b0, b1, b2)| == 4
  {
  }

  lemma SpellsWithin(a: seq<byte>, g: seq<byte>, rest: seq<byte>, x: nat)
    requires |g| == 4 && SpellsAt(g, 0, x)
    ensures SpellsAt(a + g + rest, |a|, x)
  {
    hide By64;
    assert forall k :: 0 <= k < 4 ==> (a + g + rest)[|a| + k] == g[k];
  }

  /** The whole encoding by its places: each group of three octets spells its number where group k
      belongs, a carriage return and a line feed stand in front of every nineteenth group, and the last
      octets end it. */
  lemma EncodingPlaces(s: seq<byte>, k: nat)
    requires 3 * k <= |s|
    ensures var e, i, p := Encoding(s, 0), 3 * k, Place(k);
            && p <= |e|
            && (BreakBefore(k) ==> p >= 2 && e[p - 2] == CR && e[p - 1] == LF)
            && (i + 2 < |s| ==> SpellsAt(e, p, By256(s[i], s[i + 1], s[i + 2])))
            && (i + 2 >= |s| ==> e[p..] == Last(s[i..])) && (i == |s| ==> p == |e|)
  {
    hide Encoding, SpellsAt, By256, Last, Break, Place, BreakBefore;
    var e, i := Encoding(s, 0), 3 * k;
    var r, b := Encoding(s, i), |Break(i)|;
    var q := PlacedAt(s, k);
    EncodingHere(s, i);
    SuffixPlaces(e, r, q, b);
    if i + 2 < |s| {
      SpellsFurther(e, r, q, b, By256(s[i], s[i + 1], s[i + 2]));
    }
  }

  lemma SuffixPlaces(e: seq<byte>, r: seq<byte>, q: nat, b: nat)
    requires q + |r| == |e| && e[q..] == r && b <= |r|
    ensures e[q + b..] == r[b..] && forall j :: 0 <= j < |r| ==> e[q + j] == r[j]
  {
  }

  lemma SpellsFurther(e: seq<byte>, r: seq<byte>, q: nat, b: nat, x: nat)
    requires q + |r| == |e| && e[q..] == r && b <= |r| && SpellsAt(r, b, x)
    ensures SpellsAt(e, q + b, x)
  {
    hide By64;
    assert forall k :: q + b <= k < q + b + 4 ==> e[k] == r[k - q];
  }

  lemma PlacedAt(s: seq<byte>, k: nat) returns (q: nat)
    requires 3 * k <= |s|
    ensures var e, r, b := Encoding(s, 0), Encoding(s, 3 * k), Break(3 * k);
            && q + |r| == |e| && e[q..] == r && q + |b| == Place(k) && (|b| == 2 <==> BreakBefore(k))
  {
    hide Encoding, Breaks, Break, Place, BreakBefore;
    EncodingSuffix(s, 3 * k);
    EncodedLength(s, 0);
    EncodedLength(s, 3 * k);
    WholeGroups(|s|, k);
    PlaceIs(|s|, k);
    q := |Encoding(s, 0)| - |Encoding(s, 3 * k)|;
  }

  /** The values of the symbols in front of the first padding, and the text from that padding on. */
  function Values(e: seq<byte>): (v: seq<nat>)
    ensures forall k :: 0 <= k < |v| ==> v[k] < 64
  {
    if e == [] || e[0] == PAD then []
    else if DecodeSymbol(e[0]) < 0 then Values(e[1..])
    else [DecodeSymbol(e[0])] + Values(e[1..])
  }

  function Padding(e: seq<byte>): (p: seq<byte>)
    ensures p == [] || p[0] == PAD
  {
    if e == [] || e[0] == PAD then e else Padding(e[1..])
  }

  /** The input stops inside a group, or its padding does not belong where it stands. */
  predicate CutShort(n: nat, p: seq<byte>) {
    if p == [] then n % 4 != 0 else n % 4 != 3 && !(n % 4 == 2 && |p| > 1 && p[1] == PAD)
  }

  function SpelledLength(n: nat, p: seq<byte>): (l: nat) {
    3 * (n / 4) + if CutShort(n, p) || n % 4 == 0 then 0 else n % 4 - 1
  }

  lemma TrimKeeps(e: seq<byte>)
    ensures Values(Trim(e)) == Values(e) && Padding(Trim(e)) == Padding(e)
  {
    if e != [] && e[0] != PAD && DecodeSymbol(e[0]) < 0 {
      TrimKeeps(e[1..]);
    }
  }

  /** A complete group, and what follows it. */
  lemma FourValues(e: seq<byte>) returns (rest: seq<byte>)
    requires |Values(e)| >= 4
    ensures var v := Values(e);
            && |rest| < |e| && Values(rest) == v[4..] && Padding(rest) == Padding(e)
            && Decoding(e) == Decoding(rest).Behind([Spelled(v, 0), Spelled(v, 1), Spelled(v, 2)])
  {
    hide Values, Padding, Decoding, AfterOne, AfterTwo, AfterThree, By64, Trim, ToByte;
    var v := Values(e);
    var e0 := Trim(e);
    FirstValue(e);
    var e1 := Trim(e0[1..]);
    FirstValue(e0[1..]);
    var e2 := Trim(e1[1..]);
    FirstValue(e1[1..]);
    var e3 := Trim(e2[1..]);
    FirstValue(e2[1..]);
    rest := e3[1..];
    OctetDigits(v[0], v[1], v[2], v[3]);
    DecodingStages(e);
    OneStage(v[0], e1);
    var c0, c1 := ToByte(v[0] * 4 + v[1] / 16), ToByte(v[1] * 16 + v[2] / 4);
    TwoStage(c0, v[1], e2);
    ThreeStage(c0, c1, v[2], e3);
  }

  lemma FirstValue(e: seq<byte>)
    ensures var t, v := Trim(e), Values(e);
            if v == [] then t == Padding(e)
            else t != [] && t[0] != PAD && DecodeSymbol(t[0]) == v[0] && Values(t[1..]) == v[1..]
                 && Padding(t[1..]) == Padding(e)
  {
    TrimKeeps(e);
  }

  lemma TwoStage(c0: byte, v1: nat, e2: seq<byte>)
    requires Starts(e2)
    ensures AfterTwo(c0, v1, e2) ==
            if e2 == [] then Decoded([], true)
            else if e2[0] == PAD then
              if |e2| < 2 || e2[1] != PAD then Decoded([], true) else Decoded([c0], false)
            else AfterThree(c0, ToByte(v1 * 16 + DecodeSymbol(e2[0]) / 4), DecodeSymbol(e2[0]), Trim(e2[1..]))
  {
  }

  lemma ThreeStage(c0: byte, c1: byte, v2: nat, e3: seq<byte>)
    requires Starts(e3)
    ensures AfterThree(c0, c1, v2, e3) ==
            if e3 == [] then Decoded([], true)
            else if e3[0] == PAD then Decoded([c0, c1], false)
            else Decoding(e3[1..]).Behind([c0, c1, ToByte(v2 * 64 + DecodeSymbol(e3[0]))])
  {
  }

  lemma FewOctets(v: seq<nat>)
    requires |v| < 4 && forall k :: 0 <= k < |v| ==> v[k] < 64
    ensures |v| >= 2 ==> Spelled(v, 0) == ToByte(v[0] * 4 + v[1] / 16)
    ensures |v| == 3 ==> Spelled(v, 1) == ToByte(v[1] * 16 + v[2] / 4)
  {
    hide By64, ToByte;
    OctetDigits(ValueAt(v, 0), ValueAt(v, 1), ValueAt(v, 2), ValueAt(v, 3));
  }

  /** Fewer than four values: the end of the text or the padding decides. */
  lemma FewValues(e: seq<byte>)
    requires |Values(e)| < 4
    ensures var v, p := Values(e), Padding(e);
            && Decoding(e).truncated == CutShort(|v|, p) && |Decoding(e).out| == SpelledLength(|v|, p)
            && forall j {:trigger Decoding(e).out[j]} :: 0 <= j < |Decoding(e).out| ==>
                 Decoding(e).out[j] == Spelled(v, j)
  {
    hide Values, Padding, Decoding, AfterOne, AfterTwo, AfterThree, Spelled, Trim, ToByte;
    var v, p := Values(e), Padding(e);
    FirstValue(e);
    DecodingStages(e);
    FewOctets(v);
    if v != [] {
      var e0 := Trim(e);
      var e1 := Trim(e0[1..]);
      FirstValue(e0[1..]);
      OneStage(v[0], e1);
      if |v| > 1 {
        var e2 := Trim(e1[1..]);
        FirstValue(e1[1..]);
        TwoStage(ToByte(v[0] * 4 + v[1] / 16), v[1], e2);
        if |v| > 2 {
          var e3 := Trim(e2[1..]);
          FirstValue(e2[1..]);
          ThreeStage(ToByte(v[0] * 4 + v[1] / 16), ToByte(v[1] * 16 + v[2] / 4), v[2], e3);
        }
      }
    }
  }

  /** What decoding any text gives: by the values of its symbols in front of the first padding and by
      what follows there, whether it is cut short, how many octets there are, and each of them. */
  lemma {:induction false} DecodingIs(e: seq<byte>)
    ensures var v, p := Values(e), Padding(e);
            && Decoding(e).truncated == CutShort(|v|, p) && |Decoding(e).out| == SpelledLength(|v|, p)
            && forall j {:trigger Decoding(e).out[j]} :: 0 <= j < |Decoding(e).out| ==>
                 Decoding(e).out[j] == Spelled(v, j)
    decreases |e|
  {
    hide Values, Padding, Decoding, Spelled, CutShort, SpelledLength;
    var v := Values(e);
    if |v| < 4 {
      FewValues(e);
    } else {
      var rest := FourValues(e);
      DecodingIs(rest);
      FourFewer(|v|, Padding(e));
      var r, r' := Decoding(e).out, Decoding(rest).out;
      forall j {:trigger r[j]} | 0 <= j < |r|
        ensures r[j] == Spelled(v, j)
      {
        if j >= 3 {
          SpelledLater(v, j - 3);
          assert r[j] == r'[j - 3];
        } else {
          assert r[j] == [Spelled(v, 0), Spelled(v, 1), Spelled(v, 2)][j];
        }
      }
    }
  }

  lemma FourFewer(n: nat, p: seq<byte>)
    requires n >= 4
    ensures CutShort(n, p) == CutShort(n - 4, p) && SpelledLength(n, p) == SpelledLength(n - 4, p) + 3
  {
  }
}
