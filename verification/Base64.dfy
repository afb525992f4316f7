/** The base64 codec (section 5.2 of RFC 1341): groups of three octets become four symbols, with a
    line break after every 57 octets of input. */
module Base64 {
  import opened Wrappers
  import opened Bytes
  import opened Split

  const PAD: byte := 61

  const B64_PAD := -2
  const B64_ERR := -1

  /** The symbol for a six-bit value: A-Z, a-z, 0-9, + and /. */
  function Symbol(v: nat): (c: byte)
    requires v < 64
  {
    if v < 26 then 65 + v else if v < 52 then 97 + (v - 26) else if v < 62 then 48 + (v - 52)
    else if v == 62 then 43 else 47
  }

  function DecodeSymbol(alpha: byte): (v: int) {
    if 65 <= alpha <= 90 then alpha - 65
    else if 97 <= alpha <= 122 then 26 + (alpha - 97)
    else if 48 <= alpha <= 57 then 52 + (alpha - 48)
    else if alpha == 43 then 62
    else if alpha == 47 then 63
    else if alpha == PAD then B64_PAD
    else B64_ERR
  }

  lemma SymbolDecodes(v: nat)
    requires v < 64
    ensures DecodeSymbol(Symbol(v)) == v && Symbol(v) != CR && Symbol(v) != LF && Symbol(v) != PAD
  {
  }

  /** The line break that goes before the group at offset i. */
  function Break(i: nat): (nl: seq<byte>) {
    if i > 0 && i % 57 == 0 then [CR, LF] else []
  }

  function Six(x: nat): (v: nat)
    ensures v < 64
  {
    x % 64
  }

  /** The four symbols of three octets. */
  function Group(b0: byte, b1: byte, b2: byte): (g: seq<byte>) {
    [Symbol(b0 / 4), Symbol(Six(b0 as int * 16 + b1 / 16)), Symbol(Six(b1 as int * 4 + b2 / 64)), Symbol(Six(b2))]
  }

  /** The symbols and the padding of the last octets, fewer than three. */
  function Last(t: seq<byte>): (g: seq<byte>)
    requires |t| <= 2
  {
    if |t| == 2 then [Symbol(t[0] / 4), Symbol(Six(t[0] as int * 16 + t[1] / 16)), Symbol(Six(t[1] as int * 4)), PAD]
    else if |t| == 1 then [Symbol(t[0] / 4), Symbol(Six(t[0] as int * 16)), PAD, PAD]
    else []
  }

  /** The encoding of s from offset i on. */
  function Encoding(s: seq<byte>, i: nat): (e: seq<byte>)
    requires i <= |s|
    decreases |s| - i
  {
    Break(i) + (if i + 2 < |s| then Group(s[i], s[i + 1], s[i + 2]) + Encoding(s, i + 3) else Last(s[i..]))
  }

  /** bBase64Encode */
  method Encode(b: seq<byte>) returns (out: seq<byte>)
    ensures out == Encoding(b, 0)
    ensures Decoding(out) == Decoded(b, false)
    ensures |out| == 4 * ((|b| + 2) / 3) + 2 * (|b| / 57)
  {
    hide Encoding, Decoding;
    out := [];
    var i := 0;
    while i + 2 < |b|
      invariant 0 <= i <= |b|
      invariant out + Encoding(b, i) == Encoding(b, 0)
    {
      EncodingStep(b, i, out);
      out := EncodeBreak(out, i);
      out := EncodeGroup(out, b[i], b[i + 1], b[i + 2]);
      i := i + 3;
    }
    EncodingStep(b, i, out);
    out := EncodeBreak(out, i);
    out := EncodeLast(out, b, i);
    RoundTrip(b, 0);
    EncodedLength(b, 0);
    assert b[0..] == b;
  }

  lemma EncodingStep(s: seq<byte>, i: nat, out: seq<byte>)
    requires i <= |s|
    ensures out + Encoding(s, i) ==
            out + Break(i) + (if i + 2 < |s| then Group(s[i], s[i + 1], s[i + 2]) else Last(s[i..]))
            + (if i + 2 < |s| then Encoding(s, i + 3) else [])
  {
  }

  method EncodeBreak(out: seq<byte>, i: nat) returns (out': seq<byte>)
    ensures out' == out + Break(i)
  {
    out' := out;
    if i > 0 && i % 57 == 0 { out' := out' + [CR] + [LF]; }
  }

  method EncodeGroup(out: seq<byte>, b0: byte, b1: byte, b2: byte) returns (out': seq<byte>)
    ensures out' == out + Group(b0, b1, b2)
  {
    var c0, c1, c2, c3 := b0 / 4, Six(b0 as int * 16 + b1 / 16), Six(b1 as int * 4 + b2 / 64), Six(b2);
    out' := out + [Symbol(c0)] + [Symbol(c1)] + [Symbol(c2)] + [Symbol(c3)];
  }

  /** The switch on i + 2 - slen. */
  method EncodeLast(out: seq<byte>, b: seq<byte>, i: nat) returns (out': seq<byte>)
    requires i <= |b| <= i + 2
    ensures out' == out + Last(b[i..])
  {
    out' := out;
    if i + 2 - |b| == 0 {
      var c0, c1, c2 := b[i] / 4, Six(b[i] as int * 16 + b[i + 1] / 16), Six(b[i + 1] as int * 4);
      out' := out + [Symbol(c0)] + [Symbol(c1)] + [Symbol(c2)] + [PAD];
    } else if i + 2 - |b| == 1 {
      var c0, c1 := b[i] / 4, Six(b[i] as int * 16);
      out' := out + [Symbol(c0)] + [Symbol(c1)] + [PAD] + [PAD];
    }
  }

  /** What the decoder returns: the octets, and whether the input was cut short. */
  datatype Decoded = Decoded(out: seq<byte>, truncated: bool) {
    /** The same with more octets in front. */
    function Behind(before: seq<byte>): Decoded {
      Decoded(before + out, truncated)
    }
  }

  /** Nothing is skipped at the front of e. */
  predicate Starts(e: seq<byte>) {
    e == [] || e[0] == PAD || 0 <= DecodeSymbol(e[0]) < 64
  }

  /** e from its first symbol or padding on. */
  function Trim(e: seq<byte>): (t: seq<byte>)
    ensures |t| <= |e| && Starts(t)
  {
    if e == [] || e[0] == PAD || DecodeSymbol(e[0]) >= 0 then e else Trim(e[1..])
  }

  /** Four symbols at a time, ignoring everything that is none; one or two paddings may stand for
      the last symbols. Each stage has the symbols met so far and what follows them. */
  function Decoding(e: seq<byte>): (d: Decoded)
    decreases |e|, 3
  {
    var e0 := Trim(e);
    if e0 == [] then Decoded([], false)
    else if e0[0] == PAD then Decoded([], true)
    else AfterOne(DecodeSymbol(e0[0]), Trim(e0[1..]))
  }

  function AfterOne(v0: nat, e1: seq<byte>): (d: Decoded)
    requires Starts(e1)
    decreases |e1|, 2
  {
    if e1 == [] || e1[0] == PAD then Decoded([], true)
    else AfterTwo(ToByte(v0 * 4 + DecodeSymbol(e1[0]) / 16), DecodeSymbol(e1[0]), Trim(e1[1..]))
  }

  function AfterTwo(c0: byte, v1: nat, e2: seq<byte>): (d: Decoded)
    requires Starts(e2)
    decreases |e2|, 1
  {
    if e2 == [] then Decoded([], true)
    else if e2[0] == PAD then
      if |e2| < 2 || e2[1] != PAD then Decoded([], true) else Decoded([c0], false)
    else AfterThree(c0, ToByte(v1 * 16 + DecodeSymbol(e2[0]) / 4), DecodeSymbol(e2[0]), Trim(e2[1..]))
  }

  function AfterThree(c0: byte, c1: byte, v2: nat, e3: seq<byte>): (d: Decoded)
    requires Starts(e3)
    decreases |e3|, 0
  {
    if e3 == [] then Decoded([], true)
    else if e3[0] == PAD then Decoded([c0, c1], false)
    else Decoding(e3[1..]).Behind([c0, c1, ToByte(v2 * 64 + DecodeSymbol(e3[0]))])
  }

  /** The skipping part of each of the decoder's loops: on to the first symbol or padding. */
  method SkipTo(b: seq<byte>, i0: nat) returns (i: nat)
    requires i0 <= |b|
    ensures i0 <= i <= |b| && Trim(b[i0..]) == b[i..]
  {
    i := i0;
    while i < |b| && b[i] != PAD && DecodeSymbol(b[i]) < 0
      invariant i0 <= i <= |b| && Trim(b[i0..]) == Trim(b[i..])
    {
      assert b[i..][1..] == b[i + 1..];
      i := i + 1;
    }
  }

  /** bBase64DecodeEx, with a place to report truncation. */
  method DecodeEx(b: seq<byte>) returns (out: seq<byte>, truncError: bool)
    ensures Decoded(out, truncError) == Decoding(b)
  {
    hide AfterOne, AfterTwo, AfterThree, Decoding;
    out, truncError := [], false;
    var i := 0;
    assert b[0..] == b && Decoding(b).Behind([]) == Decoding(b);
    while true
      invariant 0 <= i <= |b|
      invariant Decoding(b) == Decoding(b[i..]).Behind(out) && !truncError
      decreases |b| - i
    {
      DecodingStages(b[i..]);
      NothingBehind(out);
      i := SkipTo(b, i);
      if i >= |b| { return; }
      if b[i] == PAD { return out, true; }
      var v := DecodeSymbol(b[i]);
      assert b[i..][1..] == b[i + 1..];
      i := SkipTo(b, i + 1);
      var more;
      more, i, out, truncError := DecodeRest(b, i, out, v);
      if !more { return; }
    }
  }

  /** bBase64DecodeEx without such a place: an input that is cut short has no answer. */
  method DecodeOrNull(b: seq<byte>) returns (r: Option<seq<byte>>)
    ensures r == if Decoding(b).truncated then None else Some(Decoding(b).out)
  {
    var out, truncated := DecodeEx(b);
    r := if truncated then None else Some(out);
  }

  lemma NothingBehind(out: seq<byte>)
    ensures Decoded([], true).Behind(out) == Decoded(out, true)
    ensures Decoded([], false).Behind(out) == Decoded(out, false)
  {
  }

  /** The stages one after the other. */
  lemma DecodingStages(e: seq<byte>)
    ensures var e0 := Trim(e);
            Decoding(e) == if e0 == [] then Decoded([], false) else if e0[0] == PAD then Decoded([], true)
                           else AfterOne(DecodeSymbol(e0[0]), Trim(e0[1..]))
  {
  }

  lemma OneStage(v0: nat, e1: seq<byte>)
    requires Starts(e1)
    ensures AfterOne(v0, e1) == if e1 == [] || e1[0] == PAD then Decoded([], true)
                                else AfterTwo(ToByte(v0 * 4 + DecodeSymbol(e1[0]) / 16), DecodeSymbol(e1[0]),
                                              Trim(e1[1..]))
  {
  }

  /** The last three loops of one turn of the decoder; more is false when it returns. */
  method DecodeRest(b: seq<byte>, i0: nat, out0: seq<byte>, v0: nat)
    returns (more: bool, i: nat, out: seq<byte>, truncError: bool)
    requires i0 <= |b| && v0 < 64 && Starts(b[i0..])
    ensures i0 <= i <= |b|
    ensures AfterOne(v0, b[i0..]).Behind(out0) ==
            if more then Decoding(b[i..]).Behind(out) else Decoded(out, truncError)
    ensures more ==> i > i0 && !truncError
  {
    hide AfterOne, AfterTwo, AfterThree, Decoding;
    more, i, out, truncError := false, i0, out0, true;
    OneStage(v0, b[i0..]);
    NothingBehind(out0);
    if i >= |b| || b[i] == PAD { return; }
    var v := DecodeSymbol(b[i]);
    assert b[i..][1..] == b[i + 1..];
    var c0 := ToByte(v0 * 4 + v / 16);
    i := SkipTo(b, i + 1);
    more, i, out, truncError := DecodeLast(b, i, out0, c0, v);
  }

  method DecodeLast(b: seq<byte>, i0: nat, out0: seq<byte>, c0: byte, v1: nat)
    returns (more: bool, i: nat, out: seq<byte>, truncError: bool)
    requires i0 <= |b| && Starts(b[i0..])
    ensures i0 <= i <= |b|
    ensures AfterTwo(c0, v1, b[i0..]).Behind(out0) ==
            if more then Decoding(b[i..]).Behind(out) else Decoded(out, truncError)
    ensures more ==> !truncError
  {
    hide Decoding, Trim;
    more, i, out, truncError := false, i0, out0, true;
    NothingBehind(out0);
    if i >= |b| { return; }
    if b[i] == PAD {
      if i + 1 >= |b| || b[i + 1] != PAD { return; }
      return false, i, out + [c0], false;
    }
    var v := DecodeSymbol(b[i]);
    assert b[i..][1..] == b[i + 1..];
    var c1, c2 := ToByte(v1 * 16 + v / 4), v * 64;
    i := SkipTo(b, i + 1);
    if i >= |b| { return; }
    if b[i] == PAD { return false, i, out + [c0, c1], false; }
    v := DecodeSymbol(b[i]);
    assert b[i..][1..] == b[i + 1..];
    c2 := ToByte(c2 + v);
    i := i + 1;
    Assoc(out, [c0, c1, c2], Decoding(b[i..]).out);
    out := out + [c0, c1, c2];
    more, truncError := true, false;
  }

  lemma Mod64(q: int, r: int)
    requires 0 <= r < 64
    ensures (q * 64 + r) % 64 == r
  {
  }

  /** Three octets survive being cut into four six-bit values. */
  lemma FirstOctet(b0: byte, b1: byte)
    ensures Six(b0 as int * 16 + b1 / 16) == b0 % 4 * 16 + b1 / 16
    ensures ToByte(b0 / 4 * 4 + Six(b0 as int * 16 + b1 / 16) / 16) == b0
  {
    var q, r, h := b0 / 4, b0 % 4, b1 / 16;
    Mod64(q, r * 16 + h);
    assert b0 as int * 16 + h == q * 64 + (r * 16 + h);
  }

  lemma SecondOctet(r: int, b1: byte, b2: byte)
    requires 0 <= r < 4
    ensures Six(b1 as int * 4 + b2 / 64) == b1 % 16 * 4 + b2 / 64
    ensures ToByte((r * 16 + b1 / 16) * 16 + Six(b1 as int * 4 + b2 / 64) / 4) == b1
  {
    var q, t, h := b1 / 16, b1 % 16, b2 / 64;
    Mod64(q, t * 4 + h);
    assert b1 as int * 4 + h == q * 64 + (t * 4 + h);
    Mod256(r, b1);
    assert (t * 4 + h) / 4 == t;
    assert (r * 16 + q) * 16 + t == r * 256 + b1;
  }

  lemma ThirdOctet(t: int, b2: byte)
    requires 0 <= t < 16
    ensures ToByte((t * 4 + b2 / 64) * 64 + Six(b2)) == b2
  {
  }

  lemma TrimBreak(i: nat, e: seq<byte>)
    requires Starts(e)
    ensures Trim(Break(i) + e) == e
  {
    if i > 0 && i % 57 == 0 {
      var e2, e1 := Break(i) + e, [LF] + e;
      assert e2[0] == CR && e2[1..] == e1;
      assert e1[0] == LF && e1[1..] == e;
      assert Trim(e1) == Trim(e);
    } else {
      assert Break(i) + e == e;
    }
  }

  lemma DecodingSkips(i: nat, e: seq<byte>)
    requires Starts(e)
    ensures Decoding(Break(i) + e) == Decoding(e)
  {
    TrimBreak(i, e);
    DecodingStages(e);
    DecodingStages(Break(i) + e);
  }

  lemma FirstStage(v0: nat, e1: seq<byte>)
    requires v0 < 64 && Starts(e1)
    ensures Decoding([Symbol(v0)] + e1) == AfterOne(v0, e1) && Starts([Symbol(v0)] + e1)
  {
  }

  lemma SecondStage(v0: nat, v1: nat, e2: seq<byte>)
    requires v1 < 64 && Starts(e2)
    ensures Starts([Symbol(v1)] + e2)
    ensures AfterOne(v0, [Symbol(v1)] + e2) == AfterTwo(ToByte(v0 * 4 + v1 / 16), v1, e2)
  {
  }

  lemma ThirdStage(c0: byte, v1: nat, v2: nat, e3: seq<byte>)
    requires v2 < 64 && Starts(e3)
    ensures Starts([Symbol(v2)] + e3)
    ensures AfterTwo(c0, v1, [Symbol(v2)] + e3) == AfterThree(c0, ToByte(v1 * 16 + v2 / 4), v2, e3)
  {
  }

  lemma FourthStage(c0: byte, c1: byte, v2: nat, v3: nat, rest: seq<byte>)
    requires v3 < 64
    ensures Starts([Symbol(v3)] + rest)
    ensures AfterThree(c0, c1, v2, [Symbol(v3)] + rest) == Decoding(rest).Behind([c0, c1, ToByte(v2 * 64 + v3)])
  {
  }

  /** Decoding undoes encoding, for every string, line breaks and padding included. */
  lemma {:induction false} RoundTrip(s: seq<byte>, i: nat)
    requires i <= |s|
    ensures Decoding(Encoding(s, i)) == Decoded(s[i..], false)
    decreases |s| - i
  {
    hide Decoding, Break, Group, Last, Starts;
    if i + 2 < |s| {
      RoundTrip(s, i + 3);
      GroupRoundTrip(s[i], s[i + 1], s[i + 2], Encoding(s, i + 3));
      DecodingSkips(i, Group(s[i], s[i + 1], s[i + 2]) + Encoding(s, i + 3));
      assert s[i..] == [s[i], s[i + 1], s[i + 2]] + s[i + 3..];
    } else {
      LastRoundTrip(s[i..]);
      DecodingSkips(i, Last(s[i..]));
    }
  }

  lemma GroupRoundTrip(b0: byte, b1: byte, b2: byte, rest: seq<byte>)
    ensures Decoding(Group(b0, b1, b2) + rest) == Decoding(rest).Behind([b0, b1, b2])
    ensures Starts(Group(b0, b1, b2) + rest)
  {
    hide Decoding, AfterOne, AfterTwo, AfterThree, Starts, Symbol, Six, ToByte;
    var v0, v1, v2, v3 := b0 / 4, Six(b0 as int * 16 + b1 / 16), Six(b1 as int * 4 + b2 / 64), Six(b2);
    FirstOctet(b0, b1);
    SecondOctet(b0 % 4, b1, b2);
    ThirdOctet(b1 % 16, b2);
    var e3 := [Symbol(v3)] + rest;
    var e2 := [Symbol(v2)] + e3;
    var e1 := [Symbol(v1)] + e2;
    FourthStage(b0, b1, v2, v3, rest);
    ThirdStage(b0, v1, v2, e3);
    SecondStage(v0, v1, e2);
    FirstStage(v0, e1);
    assert Group(b0, b1, b2) + rest == [Symbol(v0)] + e1;
  }

  lemma LastRoundTrip(t: seq<byte>)
    requires |t| <= 2
    ensures Decoding(Last(t)) == Decoded(t, false) && Starts(Last(t))
  {
    if |t| == 2 {
      PairRoundTrip(t[0], t[1]);
      assert t == [t[0], t[1]];
    } else if |t| == 1 {
      SingleRoundTrip(t[0]);
      assert t == [t[0]];
    }
  }

  lemma PairRoundTrip(b0: byte, b1: byte)
    ensures var e := [Symbol(b0 / 4), Symbol(Six(b0 as int * 16 + b1 / 16)), Symbol(Six(b1 as int * 4)), PAD];
            Decoding(e) == Decoded([b0, b1], false) && Starts(e)
  {
    hide Decoding, AfterOne, AfterTwo, Symbol, Six, ToByte;
    var v0, v1, v2 := b0 / 4, Six(b0 as int * 16 + b1 / 16), Six(b1 as int * 4 + 0 / 64);
    FirstOctet(b0, b1);
    SecondOctet(b0 % 4, b1, 0);
    var e2 := [Symbol(v2)] + [PAD];
    var e1 := [Symbol(v1)] + e2;
    ThirdStage(b0, v1, v2, [PAD]);
    SecondStage(v0, v1, e2);
    FirstStage(v0, e1);
    assert [Symbol(v0), Symbol(v1), Symbol(v2), PAD] == [Symbol(v0)] + e1;
  }

  lemma SingleRoundTrip(b0: byte)
    ensures var e := [Symbol(b0 / 4), Symbol(Six(b0 as int * 16)), PAD, PAD];
            Decoding(e) == Decoded([b0], false) && Starts(e)
  {
    hide Decoding, AfterOne, Symbol, Six, ToByte;
    var v0, v1 := b0 / 4, Six(b0 as int * 16 + 0 / 16);
    FirstOctet(b0, 0);
    var e1 := [Symbol(v1)] + [PAD, PAD];
    SecondStage(v0, v1, [PAD, PAD]);
    FirstStage(v0, e1);
    assert [Symbol(v0), Symbol(v1), PAD, PAD] == [Symbol(v0)] + e1;
  }

  /** The line breaks from offset i on. */
  function Breaks(n: nat, i: nat): int {
    n / 57 - i / 57 + (if i > 0 && i % 57 == 0 then 1 else 0)
  }

  /** Four symbols for each group, begun or whole, and two octets for each line break. */
  lemma {:induction false} EncodedLength(s: seq<byte>, i: nat)
    requires i <= |s| && i % 3 == 0
    ensures |Encoding(s, i)| == 4 * ((|s| - i + 2) / 3) + 2 * Breaks(|s|, i)
    decreases |s| - i
  {
    hide Breaks, Break, Encoding, Last, Group;
    BreaksStep(|s|, i);
    EncodingParts(s, i);
    if i + 2 < |s| {
      EncodedLength(s, i + 3);
    }
  }

  lemma EncodingParts(s: seq<byte>, i: nat)
    requires i <= |s|
    ensures |Encoding(s, i)| == |Break(i)| + if i + 2 < |s| then 4 + |Encoding(s, i + 3)| else if i < |s| then 4 else 0
  {
    hide Break;
  }

  lemma ColumnOf(i: nat)
    requires i % 3 == 0
    ensures i % 57 % 3 == 0 && i % 57 <= 54
    ensures (i + 3) / 57 == if i % 57 == 54 then i / 57 + 1 else i / 57
    ensures (i + 3) % 57 == if i % 57 == 54 then 0 else i % 57 + 3
  {
    var k := i / 3;
    var q := k / 19;
    var r := k - 19 * q;
    ByFiftySeven(q, 3 * r);
    ByFiftySeven(if r == 18 then q + 1 else q, if r == 18 then 0 else 3 * r + 3);
  }

  lemma ByFiftySeven(q: nat, r: nat)
    requires r < 57
    ensures (57 * q + r) / 57 == q && (57 * q + r) % 57 == r
  {
  }

  lemma BreaksStep(n: nat, i: nat)
    requires i <= n && i % 3 == 0
    ensures 2 * Breaks(n, i) == |Break(i)| + (if i + 2 < n then 2 * Breaks(n, i + 3) else 0)
  {
    ColumnOf(i);
    if n <= i + 2 {
      assert n / 57 == i / 57;
    }
  }

  /** Read from column col on, no line of e grows past 76 octets. */
  predicate Fits(e: seq<byte>, col: nat) {
    if e == [] then true
    else if e[0] == CR || e[0] == LF then Fits(e[1..], 0)
    else col < 76 && Fits(e[1..], col + 1)
  }

  /** The column at which the encoding of offset i stands. */
  function Column(i: nat): (col: nat) {
    if i == 0 then 0 else if i % 57 == 0 then 76 else 4 * (i % 57 / 3)
  }

  lemma FitsBreak(i: nat, e: seq<byte>)
    requires i % 3 == 0 && Fits(e, 4 * (i % 57 / 3))
    ensures Fits(Break(i) + e, Column(i))
  {
    if i > 0 && i % 57 == 0 {
      assert (Break(i) + e)[1..] == [LF] + e;
      assert ([LF] + e)[1..] == e;
    } else {
      assert Break(i) + e == e;
    }
  }

  lemma FitsFour(a: byte, b: byte, c: byte, d: byte, e: seq<byte>, col: nat)
    requires a != CR && a != LF && b != CR && b != LF && c != CR && c != LF && d != CR && d != LF
    requires col + 4 <= 76 && Fits(e, col + 4)
    ensures Fits([a, b, c, d] + e, col)
  {
    var e0 := [a, b, c, d] + e;
    var e1, e2, e3 := e0[1..], e0[2..], e0[3..];
    assert e1[1..] == e2 && e2[1..] == e3 && e3[1..] == e;
    assert Fits(e3, col + 3);
    assert Fits(e2, col + 2);
    assert Fits(e1, col + 1);
  }

  lemma {:induction false} EncodingFits(s: seq<byte>, i: nat)
    requires i <= |s| && i % 3 == 0
    ensures Fits(Encoding(s, i), Column(i))
    decreases |s| - i
  {
    hide Fits, Break;
    var col := 4 * (i % 57 / 3);
    ColumnStep(i);
    if i + 2 < |s| {
      EncodingFits(s, i + 3);
      GroupFits(s[i], s[i + 1], s[i + 2], Encoding(s, i + 3), col);
      FitsBreak(i, Group(s[i], s[i + 1], s[i + 2]) + Encoding(s, i + 3));
    } else {
      LastFits(s[i..], col);
      FitsBreak(i, Last(s[i..]));
    }
  }

  lemma GroupFits(b0: byte, b1: byte, b2: byte, rest: seq<byte>, col: nat)
    requires col + 4 <= 76 && Fits(rest, col + 4)
    ensures Fits(Group(b0, b1, b2) + rest, col)
  {
    hide Fits, Symbol, Six;
    SymbolsPlain();
    FitsFour(Symbol(b0 / 4), Symbol(Six(b0 as int * 16 + b1 / 16)), Symbol(Six(b1 as int * 4 + b2 / 64)),
             Symbol(Six(b2)), rest, col);
  }

  lemma LastFits(t: seq<byte>, col: nat)
    requires |t| <= 2 && col + 4 <= 76
    ensures Fits(Last(t), col)
  {
    hide Fits, Symbol, Six;
    SymbolsPlain();
    FitsNothing(col);
    FitsNothing(col + 4);
    if |t| > 0 {
      var g := Last(t);
      FitsFour(g[0], g[1], g[2], g[3], [], col);
      assert g == [g[0], g[1], g[2], g[3]] + [];
    }
  }

  lemma SymbolsPlain()
    ensures forall v: nat :: v < 64 ==> Symbol(v) != CR && Symbol(v) != LF
  {
  }

  lemma FitsNothing(col: nat)
    ensures Fits([], col)
  {
  }

  lemma ColumnStep(i: nat)
    requires i % 3 == 0
    ensures 4 * (i % 57 / 3) + 4 <= 76 && Column(i + 3) == 4 * (i % 57 / 3) + 4
  {
    ColumnOf(i);
  }

  lemma {:induction false} LineFits(e: seq<byte>, p: nat, i: nat)
    requires p <= i <= |e| && i - p <= 76 && Fits(e[i..], i - p)
    ensures var end := EntryEnd(e, {CR, LF}, i);
            end - p <= 76 && (end < |e| ==> Fits(e[end + 1..], 0))
    decreases |e| - i
  {
    if i < |e| {
      assert e[i..][1..] == e[i + 1..];
      if e[i] != CR && e[i] != LF {
        LineFits(e, p, i + 1);
      }
    }
  }

  lemma {:induction false} FitsLines(e: seq<byte>, p: nat, k: nat)
    requires p <= |e| && Fits(e[p..], 0) && k < |CharSplit(e, {CR, LF}, p)|
    ensures |CharSplit(e, {CR, LF}, p)[k].entry| <= 76
    decreases k
  {
    hide EntryEnd, CharSplit, Fits;
    LineFits(e, p, p);
    CharSplitStep(e, {CR, LF}, p);
    if k > 0 {
      FitsLines(e, EntryEnd(e, {CR, LF}, p) + 1, k - 1);
    }
  }

  /** No line of an encoding is longer than 76 symbols. */
  lemma EncodedLines(s: seq<byte>, k: nat)
    requires k < |CharSplit(Encoding(s, 0), {CR, LF}, 0)|
    ensures |CharSplit(Encoding(s, 0), {CR, LF}, 0)[k].entry| <= 76
  {
    var e := Encoding(s, 0);
    EncodingFits(s, 0);
    assert e[0..] == e;
    FitsLines(e, 0, k);
  }

  /** Octets that are no symbols and no padding are there to be skipped. */
  predicate Ignored(c: byte) {
    c != PAD && DecodeSymbol(c) < 0
  }

  function Symbols(a: seq<byte>): (n: nat) {
    if a == [] then 0 else (if DecodeSymbol(a[0]) >= 0 then 1 else 0) + Symbols(a[1..])
  }

  /** With n symbols of a group met before a, a ends with the first of the two paddings that stand for
      the last symbols of a group, and b begins with the second. */
  predicate Between(n: nat, a: seq<byte>, b: seq<byte>) {
    && |a| > 0 && a[|a| - 1] == PAD && PAD !in a[..|a| - 1] && (n + Symbols(a[..|a| - 1])) % 4 == 2
    && b != [] && b[0] == PAD
  }

  /** Reading on to the next symbol or padding of a, if there is one. */
  lemma {:induction false} TrimWith(n: nat, a: seq<byte>, b: seq<byte>)
    ensures var t := Trim(a);
            && Trim(a + b) == (if t == [] then Trim(b) else t + b)
            && (Between(n, a, b) <==> Between(n, t, b))
    decreases |a|
  {
    if a == [] {
      assert a + b == b;
    } else {
      assert (a + b)[1..] == a[1..] + b;
      if Ignored(a[0]) {
        TrimWith(n, a[1..], b);
        BetweenNext(n, a, b);
      }
    }
  }

  lemma BetweenNext(n: nat, a: seq<byte>, b: seq<byte>)
    requires a != [] && a[0] != PAD
    ensures Between(n, a, b) <==> Between(if DecodeSymbol(a[0]) >= 0 then n + 1 else n, a[1..], b)
  {
    if |a| > 1 {
      var front := a[..|a| - 1];
      assert front[1..] == a[1..][..|a[1..]| - 1];
      assert PAD in front <==> PAD in front[1..];
    }
  }

  lemma BetweenPadding(n: nat, a: seq<byte>, b: seq<byte>)
    requires a != [] && a[0] == PAD
    ensures Between(n, a, b) ==> |a| == 1 && n % 4 == 2
  {
    if |a| > 1 { assert a[..|a| - 1][0] == PAD; }
  }

  lemma TrimIgnored(c: byte, b: seq<byte>)
    requires Ignored(c)
    ensures Trim([c] + b) == Trim(b)
  {
    assert ([c] + b)[1..] == b;
  }

  /** What the two texts are once trimmed: the same, or the first symbol or padding of a, and the rest
      of a with and without c. */
  lemma TrimBoth(n: nat, a: seq<byte>, c: byte, b: seq<byte>)
    requires Ignored(c)
    ensures var t := Trim(a);
            && (t == [] ==> Trim(a + ([c] + b)) == Trim(a + b) && !Between(n, a, b))
            && (t != [] ==>
                  && Trim(a + ([c] + b)) == t + ([c] + b) && Trim(a + b) == t + b
                  && (t + ([c] + b))[1..] == t[1..] + ([c] + b) && (t + b)[1..] == t[1..] + b
                  && (Between(n, a, b) <==> Between(n, t, b)))
  {
    hide Between;
    TrimWith(n, a, b);
    TrimWith(n, a, [c] + b);
    TrimIgnored(c, b);
    BetweenNothing(n, b);
  }

  lemma BetweenNothing(n: nat, b: seq<byte>)
    ensures !Between(n, [], b)
  {
  }

  /** An octet that is skipped changes nothing, wherever it is put in, unless that is between the two
      paddings at the end: the decoder wants the second one at once. */
  lemma {:induction false} SkippedOctet(a: seq<byte>, c: byte, b: seq<byte>)
    requires Ignored(c)
    ensures Decoding(a + ([c] + b)) == Decoding(a + b) <==> !Between(0, a, b)
    decreases |a|, 3
  {
    hide Between, AfterOne, Trim;
    var t := Trim(a);
    TrimBoth(0, a, c, b);
    if t != [] {
      if t[0] == PAD {
        BetweenPadding(0, t, b);
      } else {
        BetweenNext(0, t, b);
        SkippedOne(DecodeSymbol(t[0]), t[1..], c, b);
      }
    }
  }

  lemma {:induction false} SkippedOne(v0: nat, a: seq<byte>, c: byte, b: seq<byte>)
    requires Ignored(c)
    ensures AfterOne(v0, Trim(a + ([c] + b))) == AfterOne(v0, Trim(a + b)) <==> !Between(1, a, b)
    decreases |a|, 2
  {
    hide Between, AfterTwo, Trim;
    var t := Trim(a);
    TrimBoth(1, a, c, b);
    if t != [] {
      if t[0] == PAD {
        BetweenPadding(1, t, b);
      } else {
        BetweenNext(1, t, b);
        SkippedTwo(ToByte(v0 * 4 + DecodeSymbol(t[0]) / 16), DecodeSymbol(t[0]), t[1..], c, b);
      }
    }
  }

  lemma {:induction false} SkippedTwo(c0: byte, v1: nat, a: seq<byte>, c: byte, b: seq<byte>)
    requires Ignored(c)
    ensures AfterTwo(c0, v1, Trim(a + ([c] + b))) == AfterTwo(c0, v1, Trim(a + b)) <==> !Between(2, a, b)
    decreases |a|, 1
  {
    hide Between, AfterThree, Trim;
    var t := Trim(a);
    TrimBoth(2, a, c, b);
    if t != [] {
      if t[0] == PAD {
        SecondPadding(t, c, b);
      } else {
        BetweenNext(2, t, b);
        SkippedThree(c0, ToByte(v1 * 16 + DecodeSymbol(t[0]) / 4), DecodeSymbol(t[0]), t[1..], c, b);
      }
    }
  }

  lemma SecondPadding(t: seq<byte>, c: byte, b: seq<byte>)
    requires t != [] && t[0] == PAD && Ignored(c)
    ensures Between(2, t, b) <==> |t| == 1 && b != [] && b[0] == PAD
    ensures |t| > 1 ==> (t + ([c] + b))[1] == t[1] == (t + b)[1]
    ensures |t| == 1 ==> (t + ([c] + b))[1] == c && (b != [] ==> (t + b)[1] == b[0])
  {
    if |t| > 1 { assert t[..|t| - 1][0] == PAD; }
  }

  lemma {:induction false} SkippedThree(c0: byte, c1: byte, v2: nat, a: seq<byte>, c: byte, b: seq<byte>)
    requires Ignored(c)
    ensures AfterThree(c0, c1, v2, Trim(a + ([c] + b))) == AfterThree(c0, c1, v2, Trim(a + b)) <==> !Between(3, a, b)
    decreases |a|, 0
  {
    hide Between, Decoding, Trim;
    var t := Trim(a);
    TrimBoth(3, a, c, b);
    if t != [] {
      if t[0] == PAD {
        BetweenPadding(3, t, b);
      } else {
        BetweenNext(3, t, b);
        NextGroup(t[1..], b);
        SkippedOctet(t[1..], c, b);
        SameBehind([c0, c1, ToByte(v2 * 64 + DecodeSymbol(t[0]))], Decoding(t[1..] + ([c] + b)), Decoding(t[1..] + b));
      }
    }
  }

  lemma NextGroup(a: seq<byte>, b: seq<byte>)
    ensures Between(4, a, b) <==> Between(0, a, b)
  {
  }

  lemma SameBehind(before: seq<byte>, d: Decoded, d': Decoded)
    ensures d.Behind(before) == d'.Behind(before) <==> d == d'
  {
    assert (before + d.out)[|before|..] == d.out && (before + d'.out)[|before|..] == d'.out;
  }
}
