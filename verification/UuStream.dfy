/** The uudecoder behind its stream interface: each call delivers up to the requested number of
    octets, reading and decoding as many lines as it needs. */
module UuStream {
  import opened Wrappers
  import opened Bytes
  import opened BStrings
  import opened Split
  import opened Stream
  import opened UuCode

  const BUFF_LENGTH: nat := 1024
  const INT_MAX: nat := 0x7FFF_FFFF

  /** Whole lines, each with its end of line. */
  predicate Closed(x: seq<byte>) {
    x == [] || x[|x| - 1] == CR || x[|x| - 1] == LF
  }

  lemma LineAppend(x: seq<byte>, y: seq<byte>)
    requires x != [] && Closed(x)
    ensures var e := EntryEnd(x, TERMS, 0);
            && e < |x| && Closed(x[e + 1..]) && EntryEnd(x + y, TERMS, 0) == e
            && (x + y)[..e] == x[..e] && (x + y)[e + 1..] == x[e + 1..] + y
  {
    hide EntryEnd;
    EntryIsClear(x, TERMS, 0);
    EntryEndAppend(x, y, TERMS, 0);
  }

  /** Lines are decoded one by one, whatever follows them. */
  lemma {:induction false} LinesApart(x: seq<byte>, y: seq<byte>)
    requires Closed(x)
    ensures Octets(x + y) == Octets(x) + Octets(y) && BadLines(x + y) == BadLines(x) + BadLines(y)
    ensures Tail(x + y) == Tail(y)
    decreases |x|
  {
    hide LineResult, EntryEnd;
    if x == [] {
      assert [] + y == y && [] + Octets(y) == Octets(y);
    } else {
      var e := EntryEnd(x, TERMS, 0);
      LineAppend(x, y);
      LinesApart(x[e + 1..], y);
      Assoc(LineResult(x[..e]).octets, Octets(x[e + 1..]), Octets(y));
    }
  }

  /** One more line. */
  lemma LinesNext(c: seq<byte>, ol: nat, l: nat)
    requires ol <= l < |c| && l == EntryEnd(c, TERMS, ol) && Closed(c[..ol])
    ensures Closed(c[..l + 1]) && Octets(c[..l + 1]) == Octets(c[..ol]) + LineResult(c[ol..l]).octets
    ensures BadLines(c[..l + 1]) == BadLines(c[..ol]) + if LineResult(c[ol..l]).bad then 1 else 0
  {
    hide Octets, BadLines, Tail, LineResult, EntryEnd;
    LineIn(c, ol, l);
    LinesApart(c[..ol], c[ol..l + 1]);
    OneLine(c[ol..l + 1], l - ol);
  }

  lemma LineIn(c: seq<byte>, ol: nat, l: nat)
    requires ol <= l < |c| && l == EntryEnd(c, TERMS, ol)
    ensures var line := c[ol..l + 1];
            && c[..l + 1] == c[..ol] + line && Closed(c[..l + 1])
            && EntryEnd(line, TERMS, 0) == l - ol && line[..l - ol] == c[ol..l] && line[l - ol + 1..] == []
  {
    hide EntryEnd;
    var line := c[ol..l + 1];
    assert c[..l + 1] == c[..ol] + line;
    EntryIsClear(c, TERMS, ol);
    SliceOfSlice(c, ol, l + 1, 0, l - ol);
    assert forall k {:trigger line[k]} :: 0 <= k < |line| ==> line[k] == c[ol + k];
    EntryEndUnique(line, TERMS, 0, l - ol);
  }

  lemma OneLine(line: seq<byte>, e: nat)
    requires e < |line| && EntryEnd(line, TERMS, 0) == e && line[e + 1..] == []
    ensures Octets(line) == LineResult(line[..e]).octets
    ensures BadLines(line) == if LineResult(line[..e]).bad then 1 else 0
  {
    hide LineResult, EntryEnd;
    NothingDecodes();
    assert LineResult(line[..e]).octets + [] == LineResult(line[..e]).octets;
  }

  /** Without an end of line, x is all tail. */
  lemma AllTail(x: seq<byte>)
    requires EntryEnd(x, TERMS, 0) == |x|
    ensures Octets(x) == [] && BadLines(x) == 0 && Tail(x) == x
  {
  }

  /** octets and bad lines that have come out, and x that is still to be decoded, amount to those
      there were before and x0; once the input has ended, x is the tail and has come out, too. */
  ghost predicate Amounts(octets0: seq<byte>, bad0: nat, x0: seq<byte>, octets: seq<byte>, bad: nat,
                          x: seq<byte>, ended: bool) {
    && Tail(x) == Tail(x0)
    && octets + Octets(x) == octets0 + Octets(x0) + (if ended then LineResult(Tail(x0)).octets else [])
    && bad + BadLines(x) == bad0 + BadLines(x0) + (if ended && LineResult(Tail(x0)).bad then 1 else 0)
    && (ended ==> x == Tail(x0) && Octets(x) == [] && BadLines(x) == 0)
  }

  lemma AmountsGoingOn(octets0: seq<byte>, bad0: nat, done: seq<byte>, x: seq<byte>)
    requires Closed(done)
    ensures Amounts(octets0, bad0, done + x, octets0 + Octets(done), bad0 + BadLines(done), x, false)
  {
    hide Octets, BadLines, Tail, LineResult;
    LinesApart(done, x);
    Assoc(octets0, Octets(done), Octets(x));
    assert octets0 + Octets(done + x) + [] == octets0 + Octets(done + x);
  }

  lemma AmountsAtEnd(octets0: seq<byte>, bad0: nat, done: seq<byte>, x: seq<byte>)
    requires Closed(done) && EntryEnd(x, TERMS, 0) == |x|
    ensures Amounts(octets0, bad0, done + x, octets0 + Octets(done) + LineResult(x).octets,
                    bad0 + BadLines(done) + (if LineResult(x).bad then 1 else 0), x, true)
  {
    hide Octets, BadLines, Tail, LineResult, EntryEnd, Closed;
    AllTail(x);
    LinesApart(done, x);
    NothingBetween(octets0, Octets(done), LineResult(x).octets);
  }

  lemma NothingBetween(a: seq<byte>, b: seq<byte>, c: seq<byte>)
    ensures a + b + c + [] == a + (b + []) + c
  {
    assert b + [] == b && a + b + c + [] == a + b + c;
  }

  /** binchr for the two end-of-line characters. */
  method FindEol(b: BString, pos: nat) returns (l: int)
    requires b.Valid() && pos <= b.slen
    ensures l == (var e := EntryEnd(b.Contents(), TERMS, pos); if e < b.slen then e else BSTR_ERR)
  {
    ghost var c := b.Contents();
    var i := pos;
    while i < b.slen
      invariant pos <= i <= b.slen && EntryEnd(c, TERMS, i) == EntryEnd(c, TERMS, pos)
    {
      if b.data[i] == CR || b.data[i] == LF { return i; }
      i := i + 1;
    }
    l := BSTR_ERR;
  }

  class Decoder {
    const src: BString
    const sInp: BStream
    var dst: seq<byte>
    var badLines: nat

    ghost predicate Valid()
      reads this, src, sInp, sInp.buff, sInp.core
    {
      src.Valid() && sInp.Valid() && sInp.Apart(src)
    }

    /** What has been read but not decoded, and what has not been read. */
    ghost function Text(): (x: seq<byte>)
      requires Valid()
      reads this, src, src.data, sInp, sInp.buff, sInp.buff.data, sInp.core
    {
      src.Contents() + sInp.Pending()
    }

    /** bsUuDecode */
    constructor (sInp: BStream)
      requires sInp.Valid()
      ensures Valid() && this.sInp == sInp && dst == [] && badLines == 0 && fresh(src) && fresh(src.data)
      ensures Text() == sInp.Pending()
    {
      this.sInp := sInp;
      src := new BString([]);
      dst, badLines := [], 0;
      new;
      assert [] + sInp.Pending() == sInp.Pending();
    }

    method CountLine(s: seq<byte>)
      modifies this`dst, this`badLines
      ensures dst == old(dst) + LineResult(s).octets
      ensures badLines == old(badLines) + (if LineResult(s).bad then 1 else 0)
    {
      var t, bad := DecLine(s, dst);
      dst := t;
      if bad { badLines := badLines + 1; }
    }

    /** The do loop over the lines at hand; it stops early once more than tsz octets wait. taken is
        the text of the lines decoded. */
    method DecodeLines(l0: nat, tsz: nat) returns (ghost taken: seq<byte>)
      requires Valid() && l0 < src.slen && l0 == EntryEnd(src.Contents(), TERMS, 0)
      modifies this, src, src.data
      ensures Valid() && src.data == old(src.data) && taken != [] && Closed(taken)
      ensures old(src.Contents()) == taken + src.Contents()
      ensures dst == old(dst) + Octets(taken) && badLines == old(badLines) + BadLines(taken)
    {
      hide Octets, BadLines, LineResult, EntryEnd, Closed;
      ghost var c := src.Contents();
      var l: int, ol := l0, 0;
      ClosedStart(c, dst);
      while true
        invariant Valid() && unchanged(src) && unchanged(src.data)
        invariant 0 <= ol <= l < |c| && l == EntryEnd(c, TERMS, ol) && Closed(c[..ol])
        invariant dst == old(dst) + Octets(c[..ol]) && badLines == old(badLines) + BadLines(c[..ol])
        decreases |c| - ol
      {
        LinesNext(c, ol, l);
        Assoc(old(dst), Octets(c[..ol]), LineResult(c[ol..l]).octets);
        DecodeLine(c, ol, l);
        ol := l + 1;
        if |dst| > tsz { break; }
        l := FindEol(src, ol);
        if l == BSTR_ERR { break; }
        EntryEndFrom(c, ol);
      }
      taken := c[..ol];
      src.DeleteFront(ol);
    }

    /** A line of the loop; an empty one is passed over. */
    method DecodeLine(ghost c: seq<byte>, ol: nat, l: nat)
      requires src.Valid() && c == src.Contents() && ol <= l < |c|
      modifies this`dst, this`badLines
      ensures dst == old(dst) + LineResult(c[ol..l]).octets
      ensures badLines == old(badLines) + if LineResult(c[ol..l]).bad then 1 else 0
    {
      hide LineResult;
      if l > ol {
        SliceOfSlice(src.data[..], 0, src.slen, ol, l);
        assert src.data[..][0..src.slen] == c;
        CountLine(src.data[ol..l]);
      } else {
        EmptyLine(dst, c[ol..l]);
      }
    }

    /** bsUuDecodePart: the next octets, at most tsz of them; none is the end of the stream. more is
        what was read for them, and ended says whether the input was found to be over: every call that
        finds that delivers the tail again, so that a tail with octets keeps the stream from ending. */
    method Part(tsz: nat) returns (chunk: seq<byte>, ghost more: seq<byte>, ghost ended: bool)
      requires Valid() && tsz > 0
      modifies this, src, src.data, sInp, sInp.buff, sInp.buff.data, sInp.core
      ensures Valid() && (src.data == old(src.data) || fresh(src.data))
      ensures sInp.buff.data == old(sInp.buff.data) || fresh(sInp.buff.data)
      ensures old(sInp.Pending()) == more + sInp.Pending() && (ended ==> sInp.Over())
      ensures |chunk| <= tsz && (chunk == [] ==> ended && dst == [])
      ensures var rest := if ended then [] else sInp.Pending();
              Amounts(old(dst), old(badLines), old(src.Contents()) + more + rest,
                      chunk + dst, badLines, src.Contents() + rest, ended)
    {
      hide Octets, BadLines, LineResult, EntryEnd, Closed, Amounts;
      ghost var done: seq<byte>;
      done, more := Collect(tsz);
      ended := |dst| <= tsz;
      if |dst| <= tsz {
        AmountsAtEnd(old(dst), old(badLines), done, src.Contents());
        CountLine(src.data[..src.slen]);
        assert src.Contents() + [] == src.Contents() && done + src.Contents() + [] == done + src.Contents();
        chunk := Output(if |dst| > tsz then tsz else |dst|);
      } else {
        AmountsGoingOn(old(dst), old(badLines), done, src.Contents() + sInp.Pending());
        Assoc(done, src.Contents(), sInp.Pending());
        chunk := Output(tsz);
      }
    }

    /** Reading and decoding until more than tsz octets wait or the input is over. done is the text of
        the lines decoded, more what was read. */
    method Collect(tsz: nat) returns (ghost done: seq<byte>, ghost more: seq<byte>)
      requires Valid()
      modifies this, src, src.data, sInp, sInp.buff, sInp.buff.data, sInp.core
      ensures Valid() && (src.data == old(src.data) || fresh(src.data))
      ensures sInp.buff.data == old(sInp.buff.data) || fresh(sInp.buff.data)
      ensures old(sInp.Pending()) == more + sInp.Pending() && Closed(done)
      ensures old(src.Contents()) + more == done + src.Contents()
      ensures dst == old(dst) + Octets(done) && badLines == old(badLines) + BadLines(done)
      ensures |dst| <= tsz ==> sInp.Over() && EntryEnd(src.Contents(), TERMS, 0) == src.slen
    {
      hide Octets, BadLines, EntryEnd, Closed;
      done, more := [], [];
      NothingDone(old(src.Contents()), dst, sInp.Pending());
      while |dst| <= tsz
        invariant Valid() && (src.data == old(src.data) || fresh(src.data))
        invariant sInp.buff.data == old(sInp.buff.data) || fresh(sInp.buff.data)
        invariant old(sInp.Pending()) == more + sInp.Pending() && Closed(done)
        invariant old(src.Contents()) + more == done + src.Contents()
        invariant dst == old(dst) + Octets(done) && badLines == old(badLines) + BadLines(done)
        decreases |sInp.Pending()|, src.slen
      {
        var l := FindEol(src, 0);
        EntryEndFrom(src.Contents(), 0);
        if l >= 0 {
          ghost var taken := DecodeLines(l, tsz);
          DoneMore(old(dst), done, taken);
          Assoc(done, taken, src.Contents());
          done := done + taken;
        } else {
          ghost var c := src.Contents();
          var ret; ghost var out;
          ret, out := sInp.ReadAhead(src, sInp.maxBuffSz);
          Assoc(more, out, sInp.Pending());
          Assoc(old(src.Contents()), more, out);
          Assoc(done, c, out);
          more := more + out;
          if ret == BSTR_ERR {
            assert c + [] == c;
            break;
          }
        }
      }
    }

    /** memcpy and bdelete of the first n octets that wait. */
    method Output(n: nat) returns (chunk: seq<byte>)
      requires n <= |dst|
      modifies this`dst
      ensures |chunk| == n && old(dst) == chunk + dst
    {
      chunk := dst[..n];
      dst := dst[n..];
    }
  }

  lemma ClosedStart(c: seq<byte>, dst: seq<byte>)
    ensures c[0..] == c && Closed(c[..0]) && dst == dst + Octets(c[..0]) && BadLines(c[..0]) == 0
  {
    assert c[..0] == [];
    NothingDecodes();
  }

  lemma NothingDone(c: seq<byte>, dst: seq<byte>, pending: seq<byte>)
    ensures Closed([]) && c + [] == [] + c && pending == [] + pending && dst == dst + Octets([]) && BadLines([]) == 0
  {
    NothingDecodes();
  }

  lemma DoneMore(dst: seq<byte>, done: seq<byte>, taken: seq<byte>)
    requires Closed(done) && Closed(taken)
    ensures Closed(done + taken) && dst + Octets(done) + Octets(taken) == dst + Octets(done + taken)
    ensures BadLines(done + taken) == BadLines(done) + BadLines(taken)
  {
    hide Octets, BadLines, Tail;
    LinesApart(done, taken);
    Assoc(dst, Octets(done), Octets(taken));
    if taken == [] { assert done + taken == done; }
  }

  /** t, k times over. */
  function Repeated(t: seq<byte>, k: nat): (r: seq<byte>) {
    if k == 0 then [] else Repeated(t, k - 1) + t
  }

  lemma {:induction false} RepeatedLength(t: seq<byte>, k: nat)
    ensures |Repeated(t, k)| == k * |t|
  {
    if k > 0 { RepeatedLength(t, k - 1); }
  }

  lemma {:induction false} RepeatedPrefix(t: seq<byte>, j: nat, k: nat)
    requires j <= k
    ensures Repeated(t, j) <= Repeated(t, k)
  {
    if j < k { RepeatedPrefix(t, j, k - 1); }
  }

  /** What the decoder of a text hands out for ever: its octets, and then those of its tail. */
  function HandedOut(text: seq<byte>): (out: seq<byte>) {
    Octets(text) + Repeated(LineResult(Tail(text)).octets, INT_MAX)
  }

  lemma {:induction false} NothingRepeated(k: nat)
    ensures Repeated([], k) == []
  {
    if k > 0 { NothingRepeated(k - 1); }
  }

  /** Of a text, b has been handed out, dst waits and x is to be decoded; its tail has been delivered
      k times. */
  ghost predicate Decoded(text: seq<byte>, k: nat, b: seq<byte>, dst: seq<byte>, bad: nat, x: seq<byte>) {
    var t := LineResult(Tail(text));
    && Tail(x) == Tail(text)
    && b + (dst + Octets(x)) == Octets(text) + Repeated(t.octets, k)
    && bad + BadLines(x) == BadLines(text) + (if t.bad then k else 0)
  }

  lemma DecodingBegins(text: seq<byte>)
    ensures Decoded(text, 0, [], [], 0, text)
  {
    hide Octets, BadLines, Tail, LineResult;
    assert [] + ([] + Octets(text)) == Octets(text) + [];
  }

  lemma DecodingGoesOn(text: seq<byte>, k: nat, b: seq<byte>, dst0: seq<byte>, bad0: nat, x0: seq<byte>,
                       chunk: seq<byte>, dst: seq<byte>, bad: nat, x: seq<byte>, ended: bool)
    requires Decoded(text, k, b, dst0, bad0, x0) && Amounts(dst0, bad0, x0, chunk + dst, bad, x, ended)
    ensures Decoded(text, if ended then k + 1 else k, b + chunk, dst, bad, x)
  {
    hide Octets, BadLines, Tail, LineResult;
    var t := if ended then LineResult(Tail(text)).octets else [];
    calc {
      b + chunk + (dst + Octets(x));
      { FourParts(b, chunk, dst, Octets(x)); }
      b + (chunk + dst + Octets(x));
      b + (dst0 + Octets(x0) + t);
      { Assoc(b, dst0 + Octets(x0), t); }
      Octets(text) + Repeated(LineResult(Tail(text)).octets, k) + t;
      { Assoc(Octets(text), Repeated(LineResult(Tail(text)).octets, k), t); }
      Octets(text) + (Repeated(LineResult(Tail(text)).octets, k) + t);
    }
    assert Repeated(LineResult(Tail(text)).octets, k) + [] == Repeated(LineResult(Tail(text)).octets, k);
  }

  lemma FourParts<T>(a: seq<T>, b: seq<T>, c: seq<T>, d: seq<T>)
    ensures a + b + (c + d) == a + (b + c + d)
  {
  }

  /** A call that hands out nothing is the last: the tail has no octets. */
  lemma DecodingEnds(text: seq<byte>, k: nat, b: seq<byte>, dst0: seq<byte>, bad0: nat, x0: seq<byte>,
                     bad: nat, x: seq<byte>)
    requires Decoded(text, k, b, dst0, bad0, x0) && Amounts(dst0, bad0, x0, [], bad, x, true)
    ensures b == HandedOut(text) && LineResult(Tail(text)).octets == []
    ensures bad == BadLines(text) + if LineResult(Tail(text)).bad then k + 1 else 0
  {
    hide Octets, BadLines, Tail, LineResult, Repeated;
    assert |Octets(x0)| + |dst0| + |LineResult(Tail(text)).octets| == |[] + Octets(x)| == 0;
    NothingRepeated(k);
    NothingRepeated(INT_MAX);
    assert dst0 + Octets(x0) == [] && b + [] == b;
  }

  /** What has been handed out is always a beginning of what is to be. */
  lemma EnoughDecoded(text: seq<byte>, k: nat, b: seq<byte>, dst: seq<byte>, bad: nat, x: seq<byte>)
    requires Decoded(text, k, b, dst, bad, x) && |b| == INT_MAX
    ensures |HandedOut(text)| >= INT_MAX && b == HandedOut(text)[..INT_MAX]
  {
    hide Octets, BadLines, Tail, LineResult, Repeated;
    var t := LineResult(Tail(text)).octets;
    RepeatedLength(t, INT_MAX);
    if t == [] {
      NothingRepeated(k);
      NothingRepeated(INT_MAX);
    } else {
      AtLeast(INT_MAX, |t|);
      var m := if k < INT_MAX then INT_MAX else k;
      RepeatedPrefix(t, k, m);
      RepeatedPrefix(t, INT_MAX, m);
      SamePrefix(Octets(text), Repeated(t, k), Repeated(t, INT_MAX), Repeated(t, m), INT_MAX);
    }
  }

  lemma AtLeast(k: nat, n: nat)
    requires n > 0
    ensures k * n >= k
  {
  }

  lemma SamePrefix(a: seq<byte>, r: seq<byte>, s: seq<byte>, whole: seq<byte>, n: nat)
    requires r <= whole && s <= whole && n <= |a + r| && n <= |a + s|
    ensures (a + r)[..n] == (a + s)[..n]
  {
  }

  /** bUuDecodeEx with a place to count bad lines: bsread asks the decoder for INT_MAX octets. A stream
      that delivers none makes bsread fail, and the answer is NULL. A tail with octets is delivered
      until there are enough. */
  method DecodeEx(text: seq<byte>) returns (r: Option<seq<byte>>, badLines: nat)
    ensures var out := HandedOut(text);
            r == if out == [] then None else Some(if |out| <= INT_MAX then out else out[..INT_MAX])
    ensures !LineResult(Tail(text)).bad ==> badLines <= BadLines(text)
    ensures |HandedOut(text)| < INT_MAX && !LineResult(Tail(text)).bad ==> badLines == BadLines(text)
    ensures |HandedOut(text)| < INT_MAX && LineResult(Tail(text)).bad ==> badLines > BadLines(text)
  {
    hide Octets, BadLines, Tail, LineResult, HandedOut, Amounts;
    var core := new Core(text, true);
    var s := new BStream(core, BUFF_LENGTH);
    var d := new Decoder(s);
    ghost var t := LineResult(Tail(text));
    var b: seq<byte> := [];
    ghost var k := 0;
    DecodingBegins(text);
    while |b| < INT_MAX
      invariant d.Valid() && fresh(d) && fresh(d.src) && fresh(d.src.data) && fresh(d.sInp)
      invariant fresh(d.sInp.buff) && fresh(d.sInp.buff.data) && fresh(d.sInp.core) && d.sInp.core.honest
      invariant |b| <= INT_MAX && Decoded(text, k, b, d.dst, d.badLines, d.Text())
      decreases INT_MAX - |b|
    {
      ghost var dst0, bad0, x0 := d.dst, d.badLines, d.Text();
      ghost var c0, p0 := d.src.Contents(), d.sInp.Pending();
      var chunk; ghost var more, ended;
      chunk, more, ended := d.Part(if INT_MAX - |b| < BUFF_LENGTH then INT_MAX - |b| else BUFF_LENGTH);
      Assoc(c0, more, d.sInp.Pending());
      if ended {
        assert d.sInp.Pending() == [] && more + [] == more && c0 + more + [] == c0 + more;
      }
      DecodingGoesOn(text, k, b, dst0, bad0, x0, chunk, d.dst, d.badLines, d.Text(), ended);
      if ended { k := k + 1; }
      b := b + chunk;
      if |chunk| == 0 {
        DecodingEnds(text, k - 1, b, dst0, bad0, x0, d.badLines, d.Text());
        break;
      }
    }
    if |b| == INT_MAX {
      EnoughDecoded(text, k, b, d.dst, d.badLines, d.Text());
      assert |HandedOut(text)| == INT_MAX ==> HandedOut(text)[..INT_MAX] == HandedOut(text);
    }
    badLines := d.badLines;
    r := if |b| == 0 then None else Some(b);
  }

  lemma EmptyLine(dst: seq<byte>, s: seq<byte>)
    requires s == []
    ensures dst + LineResult(s).octets == dst && !LineResult(s).bad
  {
  }

  lemma EntryEndFrom(c: seq<byte>, ol: nat)
    requires ol <= |c|
    ensures ol <= EntryEnd(c, TERMS, ol) <= |c|
  {
  }

  /** The tail of an input without a last end of line stays where it is when it is decoded, so that a
      lone encoded line without its end of line yields its octets again and again. */
  lemma UnterminatedLineNeverEnds(s: seq<byte>)
    requires 0 < |s| <= UU_MAX_LINELEN
    ensures Tail(UuCode.Line(s, 0)) == UuCode.Line(s, 0) && LineResult(UuCode.Line(s, 0)).octets == s
  {
    LineDecodes(s, 0);
    LinePlain(s, 0);
    EntryEndUnique(UuCode.Line(s, 0), TERMS, 0, |UuCode.Line(s, 0)|);
    assert s[0..|s|] == s;
  }

  /** Encoding and decoding again: everything comes back, and no line is bad. */
  method EncodeDecode(s: seq<byte>) returns (r: Option<seq<byte>>, badLines: nat)
    ensures r == if s == [] then None else Some(if |s| <= INT_MAX then s else s[..INT_MAX])
    ensures badLines == 0
  {
    hide Octets, BadLines, Tail, LineResult, Repeated;
    var text := Encode(s);
    NothingRepeated(INT_MAX);
    NothingDecoded();
    assert s + [] == s;
    r, badLines := DecodeEx(text);
  }

  lemma NothingDecoded()
    ensures LineResult([]) == Result([], false)
  {
  }
}
