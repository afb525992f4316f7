/** The uuencoder, and the decoder that works line by line behind a stream interface. */
module UuCode {
  import opened Bytes
  import opened Split

  const UU_MAX_LINELEN := 45
  const TERMS: set<byte> := {13, 10}

  function EncodeByte(b: nat): (c: byte)
    requires b < 64
  {
    if b == 0 then 96 else b + 32
  }

  function DecodeByte(b: byte): (v: int) {
    if b == 96 then 0 else b as int - 32
  }

  lemma ByteDecodes(b: nat)
    requires b < 64
    ensures DecodeByte(EncodeByte(b)) == b && EncodeByte(b) !in TERMS
  {
  }

  /** bchar and bchare: the octet at k, or a default past the end. */
  function At(s: seq<byte>, k: nat, d: byte): (c: byte) {
    if k < |s| then s[k] else d
  }

  /** The four characters of the group of three octets at j, zeros past the end. */
  function Group(b0: byte, b1: byte, b2: byte): (g: seq<byte>)
    ensures |g| == 4
  {
    [EncodeByte(b0 / 4), EncodeByte(b0 % 4 * 16 + b1 / 16), EncodeByte(b1 % 16 * 4 + b2 / 64), EncodeByte(b2 % 64)]
  }

  function Groups(s: seq<byte>, j: nat, jm: nat): (g: seq<byte>)
    requires jm <= |s|
    decreases jm - j
  {
    if j >= jm then [] else Group(At(s, j, 0), At(s, j + 1, 0), At(s, j + 2, 0)) + Groups(s, j + 3, jm)
  }

  function LineEnd(s: seq<byte>, i: nat): (jm: nat)
    requires i <= |s|
    ensures i <= jm <= |s|
  {
    if i + UU_MAX_LINELEN > |s| then |s| else i + UU_MAX_LINELEN
  }

  /** One line: the count of its octets, then their groups. */
  function Line(s: seq<byte>, i: nat): (l: seq<byte>)
    requires i < |s|
    ensures |l| > 0
  {
    [EncodeByte(LineEnd(s, i) - i)] + Groups(s, i, LineEnd(s, i))
  }

  function Encoding(s: seq<byte>, i: nat): (e: seq<byte>)
    decreases |s| - i
  {
    if i >= |s| then [] else Line(s, i) + [CR, LF] + Encoding(s, i + UU_MAX_LINELEN)
  }

  /** bUuEncode */
  method Encode(src: seq<byte>) returns (out: seq<byte>)
    ensures out == Encoding(src, 0)
    ensures Octets(out) == src && BadLines(out) == 0 && Tail(out) == []
    ensures src == [] ==> out == []
  {
    hide Octets, BadLines, Tail, Line;
    out := [];
    var i := 0;
    while i < |src|
      invariant out + Encoding(src, i) == Encoding(src, 0)
    {
      ghost var before := out;
      var jm := i + UU_MAX_LINELEN;
      if jm > |src| { jm := |src|; }
      out := EncodeLine(out, src, i, jm);
      Assoc(before, Line(src, i) + [CR, LF], Encoding(src, i + UU_MAX_LINELEN));
      i := i + UU_MAX_LINELEN;
    }
    assert out + [] == out;
    RoundTrip(src, 0);
    assert src[0..] == src;
  }

  method EncodeLine(out0: seq<byte>, src: seq<byte>, i: nat, jm: nat) returns (out: seq<byte>)
    requires i < |src| && jm == LineEnd(src, i)
    ensures out == out0 + (Line(src, i) + [CR, LF])
  {
    hide EncodeByte, At;
    out := out0 + [EncodeByte(jm - i)];
    var j := i;
    while j < jm
      invariant i <= j
      invariant out + Groups(src, j, jm) == out0 + Line(src, i)
    {
      var c0, c1, c2 := At(src, j, 0), At(src, j + 1, 0), At(src, j + 2, 0);
      Assoc(out, Group(c0, c1, c2), Groups(src, j + 3, jm));
      out := out + [EncodeByte(c0 / 4)] + [EncodeByte(c0 % 4 * 16 + c1 / 16)]
             + [EncodeByte(c1 % 16 * 4 + c2 / 64)] + [EncodeByte(c2 % 64)];
      j := j + 3;
    }
    assert out + [] == out;
    Assoc(out0, Line(src, i), [CR, LF]);
    out := out + [CR] + [LF];
  }

  predicate IsSpace(c: byte) {
    c == 32 || 9 <= c <= 13
  }

  /** A character no line can be decoded with. */
  predicate Hopeless(d: byte) {
    d > 0x60 || (d < 31 && !IsSpace(d))
  }

  predicate SixBits(c: int) {
    0 <= c < 64
  }

  /** A line's octets, and whether it counts as a bad line. */
  datatype Result = Result(octets: seq<byte>, bad: bool)

  /** The octets of a line from character i on, when need of them are announced and acc are
      decoded. An odd character counts as a zero and makes the line bad; a hopeless one, or too
      few octets, leave nothing of the line. */
  function LineGroups(s: seq<byte>, i: nat, need: nat, acc: seq<byte>, bad: bool): (r: Result)
    decreases |s| - i
  {
    if i >= |s| || |acc| >= need then
      if |acc| < need then Result([], true) else Result(acc, bad)
    else
      var d0, d1, d2, d3 := At(s, i, 31), At(s, i + 1, 31), At(s, i + 2, 31), At(s, i + 3, 31);
      var ok01 := SixBits(DecodeByte(d0)) && SixBits(DecodeByte(d1));
      var ok2, ok3 := SixBits(DecodeByte(d2)), SixBits(DecodeByte(d3));
      if !ok01 && (Hopeless(d0) || Hopeless(d1)) then Result([], true)
      else
        var c0, c1 := if ok01 then DecodeByte(d0) else 0, if ok01 then DecodeByte(d1) else 0;
        var o0, bad0 := ToByte(c0 * 4 + c1 / 16), bad || !ok01;
        if |acc| + 1 >= need then Result(acc + [o0], bad0)
        else if !ok2 && Hopeless(d2) then Result([], true)
        else
          var c2 := if ok2 then DecodeByte(d2) else 0;
          var o1, bad1 := ToByte(c1 * 16 + c2 / 4), bad0 || !ok2;
          if |acc| + 2 >= need then Result(acc + [o0, o1], bad1)
          else if !ok3 && Hopeless(d3) then Result([], true)
          else
            var c3 := if ok3 then DecodeByte(d3) else 0;
            LineGroups(s, i + 4, need, acc + [o0, o1, ToByte(c2 * 64 + c3)], bad1 || !ok3)
  }

  function LineResult(s: seq<byte>): (r: Result) {
    if s == [] then Result([], false)
    else if !(0 <= DecodeByte(s[0]) <= UU_MAX_LINELEN) then Result([], true)
    else LineGroups(s, 1, DecodeByte(s[0]), [], false)
  }

  /** bUuDecLine on the line s: what it adds to the output, and whether it counts a bad line. */
  method DecLine(s: seq<byte>, t0: seq<byte>) returns (t: seq<byte>, bad: bool)
    ensures t == t0 + LineResult(s).octets && bad == LineResult(s).bad
  {
    t, bad := t0, false;
    assert t0 + [] == t0;
    if |s| == 0 { return; }
    var llen := DecodeByte(s[0]);
    if llen < 0 || llen > UU_MAX_LINELEN { return t0, true; }
    llen := llen + |t|;
    var i := 1;
    ghost var acc: seq<byte> := [];
    while i < |s| && |t| < llen
      invariant 1 <= i && t == t0 + acc && llen == |t0| + DecodeByte(s[0])
      invariant LineGroups(s, i, DecodeByte(s[0]), acc, bad) == LineResult(s)
      decreases |s| - i
    {
      var d0, d1, d2, d3 := At(s, i, 31), At(s, i + 1, 31), At(s, i + 2, 31), At(s, i + 3, 31);
      var c0, c1, c2, c3 := DecodeByte(d0), DecodeByte(d1), DecodeByte(d2), DecodeByte(d3);
      if !(SixBits(c0) && SixBits(c1)) {
        bad := true;
        if Hopeless(d0) || Hopeless(d1) { return t0, true; }
        c0, c1 := 0, 0;
      }
      var o0 := ToByte(c0 * 4 + c1 / 16);
      if |t| + 1 >= llen {
        Assoc(t0, acc, [o0]);
        return t + [o0], bad;
      }
      if !SixBits(c2) {
        bad := true;
        if Hopeless(d2) { return t0, true; }
        c2 := 0;
      }
      var o1 := ToByte(c1 * 16 + c2 / 4);
      if |t| + 2 >= llen {
        Assoc(t0, acc, [o0, o1]);
        return t + [o0, o1], bad;
      }
      if !SixBits(c3) {
        bad := true;
        if Hopeless(d3) { return t0, true; }
        c3 := 0;
      }
      var o2 := ToByte(c2 * 64 + c3);
      Assoc(t0, acc, [o0, o1, o2]);
      t := t + [o0, o1, o2];
      acc := acc + [o0, o1, o2];
      i := i + 4;
    }
    if |t| < llen { return t0, true; }
  }

  /** The octets of the complete lines of x, how many of those lines are bad, and what follows the
      last end of line. */
  function Octets(x: seq<byte>): (o: seq<byte>)
    decreases |x|
  {
    var e := EntryEnd(x, TERMS, 0);
    if e == |x| then [] else LineResult(x[..e]).octets + Octets(x[e + 1..])
  }

  function BadLines(x: seq<byte>): (n: nat)
    decreases |x|
  {
    var e := EntryEnd(x, TERMS, 0);
    if e == |x| then 0 else (if LineResult(x[..e]).bad then 1 else 0) + BadLines(x[e + 1..])
  }

  function Tail(x: seq<byte>): (t: seq<byte>)
    decreases |x|
  {
    var e := EntryEnd(x, TERMS, 0);
    if e == |x| then x else Tail(x[e + 1..])
  }

  /** The octets of one group come back. */
  lemma GroupOctets(b0: byte, b1: byte, b2: byte)
    ensures ToByte(b0 / 4 * 4 + (b0 % 4 * 16 + b1 / 16) / 16) == b0
    ensures ToByte((b0 % 4 * 16 + b1 / 16) * 16 + (b1 % 16 * 4 + b2 / 64) / 4) == b1
    ensures ToByte((b1 % 16 * 4 + b2 / 64) * 64 + b2 % 64) == b2
  {
    var r, q, t, h, l := b0 % 4, b1 / 16, b1 % 16, b2 / 64, b2 % 64;
    assert (r * 16 + q) / 16 == r && (t * 4 + h) / 4 == t;
    assert (r * 16 + q) * 16 + t == r * 256 + b1;
    assert (t * 4 + h) * 64 + l == t * 256 + b2;
    Mod256(r, b1);
    Mod256(t, b2);
  }

  /** One turn of the decoder on an encoded group. */
  lemma GroupDecodes(l: seq<byte>, k: nat, need: nat, acc: seq<byte>, b0: byte, b1: byte, b2: byte)
    requires k + 4 <= |l| && |acc| < need
    requires l[k] == EncodeByte(b0 / 4) && l[k + 1] == EncodeByte(b0 % 4 * 16 + b1 / 16)
    requires l[k + 2] == EncodeByte(b1 % 16 * 4 + b2 / 64) && l[k + 3] == EncodeByte(b2 % 64)
    ensures LineGroups(l, k, need, acc, false) ==
            if |acc| + 1 == need then Result(acc + [b0], false)
            else if |acc| + 2 == need then Result(acc + [b0, b1], false)
            else LineGroups(l, k + 4, need, acc + [b0, b1, b2], false)
  {
    hide EncodeByte, DecodeByte, ToByte, Hopeless;
    GroupOctets(b0, b1, b2);
    ByteDecodes(b0 / 4);
    ByteDecodes(b0 % 4 * 16 + b1 / 16);
    ByteDecodes(b1 % 16 * 4 + b2 / 64);
    ByteDecodes(b2 % 64);
  }

  /** Decoding the groups of s from j on, behind the octets already decoded. */
  lemma {:induction false} GroupsDecode(s: seq<byte>, i: nat, j: nat, jm: nat, l: seq<byte>, k: nat)
    requires i <= j <= jm <= |s| && (jm == |s| || (jm - j) % 3 == 0)
    requires k <= |l| && l[k..] == Groups(s, j, jm)
    ensures LineGroups(l, k, jm - i, s[i..j], false) == Result(s[i..jm], false)
    decreases jm - j
  {
    hide LineGroups, Groups, At, EncodeByte;
    if j < jm {
      GroupsHead(s, j, jm, l, k);
      GroupDecodes(l, k, jm - i, s[i..j], At(s, j, 0), At(s, j + 1, 0), At(s, j + 2, 0));
      SliceGrows(s, i, j, jm);
      if j + 3 <= jm {
        GroupsDecode(s, i, j + 3, jm, l, k + 4);
        if j + 3 == jm {
          AllDecoded(l, k + 4, jm - i, s[i..jm]);
        }
      }
    } else {
      AllDecoded(l, k, jm - i, s[i..jm]);
    }
  }

  lemma AllDecoded(l: seq<byte>, k: nat, need: nat, acc: seq<byte>)
    requires |acc| == need
    ensures LineGroups(l, k, need, acc, false) == Result(acc, false)
  {
  }

  lemma SliceGrows(s: seq<byte>, i: nat, j: nat, jm: nat)
    requires i <= j < jm <= |s|
    ensures var b0, b1, b2 := At(s, j, 0), At(s, j + 1, 0), At(s, j + 2, 0);
            && (j + 3 <= jm ==> s[i..j + 3] == s[i..j] + [b0, b1, b2])
            && (j + 2 == jm ==> s[i..jm] == s[i..j] + [b0, b1])
            && (j + 1 == jm ==> s[i..jm] == s[i..j] + [b0])
  {
  }

  lemma GroupsHead(s: seq<byte>, j: nat, jm: nat, l: seq<byte>, k: nat)
    requires j < jm <= |s| && k <= |l| && l[k..] == Groups(s, j, jm)
    ensures var b0, b1, b2 := At(s, j, 0), At(s, j + 1, 0), At(s, j + 2, 0);
            && k + 4 <= |l| && l[k] == EncodeByte(b0 / 4) && l[k + 1] == EncodeByte(b0 % 4 * 16 + b1 / 16)
            && l[k + 2] == EncodeByte(b1 % 16 * 4 + b2 / 64) && l[k + 3] == EncodeByte(b2 % 64)
            && l[k + 4..] == Groups(s, j + 3, jm)
  {
  }

  lemma LineDecodes(s: seq<byte>, i: nat)
    requires i < |s|
    ensures LineResult(Line(s, i)) == Result(s[i..LineEnd(s, i)], false)
  {
    var jm, l := LineEnd(s, i), Line(s, i);
    ByteDecodes(jm - i);
    assert l[1..] == Groups(s, i, jm);
    GroupsDecode(s, i, i, jm, l, 1);
    assert s[i..i] == [];
  }

  /** No character of a line ends it. */
  lemma {:induction false} GroupsPlain(s: seq<byte>, j: nat, jm: nat)
    requires jm <= |s|
    ensures forall c :: c in Groups(s, j, jm) ==> c !in TERMS
    decreases jm - j
  {
    if j < jm {
      GroupsPlain(s, j + 3, jm);
      var b0, b1, b2 := At(s, j, 0), At(s, j + 1, 0), At(s, j + 2, 0);
      ByteDecodes(b0 / 4);
      ByteDecodes(b0 % 4 * 16 + b1 / 16);
      ByteDecodes(b1 % 16 * 4 + b2 / 64);
      ByteDecodes(b2 % 64);
    }
  }

  lemma LinePlain(s: seq<byte>, i: nat)
    requires i < |s|
    ensures forall k :: 0 <= k < |Line(s, i)| ==> Line(s, i)[k] !in TERMS
  {
    GroupsPlain(s, i, LineEnd(s, i));
    ByteDecodes(LineEnd(s, i) - i);
  }

  /** A line, its end, and what follows. */
  lemma LineFirst(l: seq<byte>, rest: seq<byte>)
    requires l != [] && forall k :: 0 <= k < |l| ==> l[k] !in TERMS
    ensures var x := l + [CR, LF] + rest;
            && Octets(x) == LineResult(l).octets + Octets(rest)
            && BadLines(x) == (if LineResult(l).bad then 1 else 0) + BadLines(rest)
            && Tail(x) == Tail(rest)
  {
    hide LineResult, EntryEnd, Octets, BadLines, Tail;
    var x := l + [CR, LF] + rest;
    LineCut(l, rest);
    assert [] + Octets(rest) == Octets(rest);
    LineUnfold(x, |l|);
    LineUnfold([LF] + rest, 0);
    NothingOnLine();
  }

  lemma LineUnfold(x: seq<byte>, e: nat)
    requires e == EntryEnd(x, TERMS, 0) < |x|
    ensures Octets(x) == LineResult(x[..e]).octets + Octets(x[e + 1..])
    ensures BadLines(x) == (if LineResult(x[..e]).bad then 1 else 0) + BadLines(x[e + 1..])
    ensures Tail(x) == Tail(x[e + 1..])
  {
    hide LineResult, EntryEnd;
  }

  lemma NothingOnLine()
    ensures LineResult([]) == Result([], false)
  {
  }

  lemma LineCut(l: seq<byte>, rest: seq<byte>)
    requires forall k :: 0 <= k < |l| ==> l[k] !in TERMS
    ensures var x, y := l + [CR, LF] + rest, [LF] + rest;
            && EntryEnd(x, TERMS, 0) == |l| && x[..|l|] == l && x[|l| + 1..] == y
            && EntryEnd(y, TERMS, 0) == 0 && y[..0] == [] && y[1..] == rest
  {
    hide EntryEnd;
    EntryEndUnique(l + [CR, LF] + rest, TERMS, 0, |l|);
    EntryEndUnique([LF] + rest, TERMS, 0, 0);
  }

  /** Decoding undoes encoding: every octet comes back, no line is bad, nothing is left over. */
  lemma {:induction false} RoundTrip(s: seq<byte>, i: nat)
    ensures var e := Encoding(s, i);
            Octets(e) == (if i < |s| then s[i..] else []) && BadLines(e) == 0 && Tail(e) == []
    decreases |s| - i
  {
    hide Octets, BadLines, Tail, Line, LineResult;
    if i < |s| {
      var j := i + UU_MAX_LINELEN;
      RoundTrip(s, j);
      LinePlain(s, i);
      LineDecodes(s, i);
      LineFirst(Line(s, i), Encoding(s, j));
      assert s[i..] == s[i..LineEnd(s, i)] + (if j < |s| then s[j..] else []);
    } else {
      NothingDecodes();
    }
  }

  lemma NothingDecodes()
    ensures Octets([]) == [] && BadLines([]) == 0 && Tail([]) == []
  {
  }
}
