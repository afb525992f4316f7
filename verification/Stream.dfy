/** The buffered stream: a read-ahead buffer in front of a core stream that may answer any request
    with fewer octets than asked for. */
module Stream {
  import opened Bytes
  import opened BStrings
  import opened Split

  /** The core stream: what it has not yet given out, and a reader that hands over any number of
      octets up to the number requested. An honest reader says zero only at its end. */
  class Core {
    var rest: seq<byte>
    const honest: bool

    constructor (s: seq<byte>, honest: bool)
      ensures rest == s && this.honest == honest
    {
      rest := s;
      this.honest := honest;
    }

    /** The fread-like function: up to n octets into d from offset at on. */
    method Read(d: array<byte>, at: nat, n: nat) returns (l: int)
      requires at + n <= d.Length
      modifies this, d
      ensures l <= n && l <= |old(rest)|
      ensures l <= 0 ==> rest == old(rest) && d[..] == old(d[..])
      ensures l <= 0 && honest && n > 0 ==> rest == []
      ensures l > 0 ==> rest == old(rest)[l..] && d[..] == Patched(old(d[..]), at, old(rest)[..l])
    {
      l :| l <= n && l <= |rest| && (honest && n > 0 && rest != [] ==> l > 0);
      if l > 0 {
        forall k | 0 <= k < l {
          d[at + k] := rest[k];
        }
        rest := rest[l..];
      }
    }
  }

  /** The line that s begins with: up to its first octet in terms, that octet included, or all of
      s if it has none. */
  function FirstLine(s: seq<byte>, terms: set<byte>): (line: seq<byte>)
    ensures line <= s
  {
    var e := EntryEnd(s, terms, 0);
    if e < |s| then s[..e + 1] else s
  }

  /** out is a whole line, its only terminator at its end. */
  predicate EndsLine(out: seq<byte>, terms: set<byte>) {
    out != [] && EntryEnd(out, terms, 0) == |out| - 1
  }

  predicate NoTerm(out: seq<byte>, terms: set<byte>) {
    EntryEnd(out, terms, 0) == |out|
  }

  lemma {:induction false} EntryEndAppend(a: seq<byte>, b: seq<byte>, terms: set<byte>, i: nat)
    requires i <= |a|
    ensures EntryEnd(a + b, terms, i) ==
            if EntryEnd(a, terms, i) < |a| then EntryEnd(a, terms, i) else |a| + EntryEnd(b, terms, 0)
    decreases |a| - i
  {
    if i < |a| {
      if a[i] !in terms {
        EntryEndAppend(a, b, terms, i + 1);
      }
    } else {
      EntryEndShift(a, b, terms, 0);
    }
  }

  lemma {:induction false} EntryEndShift(a: seq<byte>, b: seq<byte>, terms: set<byte>, i: nat)
    requires i <= |b|
    ensures EntryEnd(a + b, terms, |a| + i) == |a| + EntryEnd(b, terms, i)
    decreases |b| - i
  {
    if i < |b| && b[i] !in terms {
      EntryEndShift(a, b, terms, i + 1);
    }
  }

  /** Text without a terminator, then a chunk whose first terminator is at i. */
  lemma LineGrows(a: seq<byte>, chunk: seq<byte>, terms: set<byte>)
    requires NoTerm(a, terms)
    ensures NoTerm(chunk, terms) ==> NoTerm(a + chunk, terms)
    ensures var i := EntryEnd(chunk, terms, 0); i < |chunk| ==> EndsLine(a + chunk[..i + 1], terms)
  {
    hide EntryEnd;
    EntryEndAppend(a, chunk, terms, 0);
    var i := EntryEnd(chunk, terms, 0);
    if i < |chunk| {
      var c := chunk[..i + 1];
      assert chunk == c + chunk[i + 1..];
      EntryEndAppend(c, chunk[i + 1..], terms, 0);
      EntryEndAppend(a, c, terms, 0);
    }
  }

  lemma WholeLineIsFirst(out: seq<byte>, rest: seq<byte>, terms: set<byte>)
    ensures EndsLine(out, terms) ==> FirstLine(out + rest, terms) == out
    ensures NoTerm(out, terms) && rest == [] ==> FirstLine(out + rest, terms) == out
  {
    EntryEndAppend(out, rest, terms, 0);
  }

  /** Scan from offset at for the sentinel test; d[at + l] stops it. */
  method ScanField(d: array<byte>, at: nat, l: nat, cf: array<bool>, ghost terms: set<byte>) returns (i: nat)
    requires at + l < d.Length && cf.Length == 256 && (forall c: byte :: cf[c] <==> c in terms)
    requires d[at + l] in terms
    ensures i <= l && i == EntryEnd(d[at..at + l], terms, 0)
  {
    i := 0;
    ghost var s := d[at..at + l];
    while !cf[d[at + i]]
      invariant i <= l && EntryEnd(s, terms, i) == EntryEnd(s, terms, 0)
      decreases l - i
    {
      i := i + 1;
    }
  }

  /** How one direct read of the line loop ended. */
  datatype Turn = More | Found | Ended

  class BStream {
    const buff: BString
    const core: Core
    const maxBuffSz: nat
    var isEOF: bool

    ghost predicate Valid()
      reads this, buff, core
    {
      buff.Valid() && maxBuffSz > 0 && (core.honest && isEOF ==> core.rest == [])
    }

    /** What the stream still has to deliver: the buffer, then the core. */
    ghost function Pending(): (s: seq<byte>)
      requires buff.Valid()
      reads this, buff, buff.data, core
    {
      buff.Contents() + core.rest
    }

    /** Nothing is buffered and the core has said that it has nothing. */
    predicate Over()
      reads this, buff
    {
      buff.slen == 0 && isEOF
    }

    /** r can be filled from this stream: it shares no memory with the buffer. */
    ghost predicate Apart(r: BString)
      reads r, buff
    {
      r != buff && r.data != buff.data
    }

    /** bsopen, with the buffer length that bsbufflength may have set. */
    constructor (core: Core, sz: nat)
      requires sz > 0
      ensures Valid() && this.core == core && Pending() == core.rest && !isEOF
      ensures maxBuffSz == sz && fresh(buff) && fresh(buff.data)
    {
      this.core := core;
      this.buff := new BString([]);
      maxBuffSz := sz;
      isEOF := false;
    }

    /** One direct read of the line loop: a chunk into r behind its contents, the sentinel behind
        the chunk, and the scan. l <= 0 is the core's end. */
    method FillLine(r: BString, cf: array<bool>, sentinel: byte, ghost terms: set<byte>) returns (l: int, i: nat)
      requires Valid() && r.Valid() && Apart(r)
      requires cf.Length == 256 && (forall c: byte :: cf[c] <==> c in terms) && sentinel in terms
      modifies r, r.data, core
      ensures r.Valid() && Apart(r) && (r.data == old(r.data) || fresh(r.data))
      ensures r.slen == old(r.slen) && r.Contents() == old(r.Contents())
      ensures l <= |old(core.rest)| && l <= maxBuffSz
      ensures l <= 0 ==> core.rest == old(core.rest) && (core.honest ==> core.rest == [])
      ensures l > 0 ==> core.rest == old(core.rest)[l..] && r.slen + l < r.data.Length
      ensures l > 0 ==> r.data[r.slen..r.slen + l] == old(core.rest)[..l]
      ensures l > 0 ==> i <= l && i == EntryEnd(old(core.rest)[..l], terms, 0)
    {
      r.Alloc(r.slen + maxBuffSz + 1);
      l := core.Read(r.data, r.slen, maxBuffSz);
      i := 0;
      if l > 0 {
        r.data[r.slen + l] := sentinel;
        assert r.data[r.slen..r.slen + l] == old(core.rest)[..l];
        i := ScanField(r.data, r.slen, l, cf, terms);
      }
    }

    /** One turn of the loop of direct reads: a chunk goes straight into r; if it holds a
        terminator, what was read past that goes back to the buffer. */
    method LineTurn(r: BString, cf: array<bool>, sentinel: byte, ghost terms: set<byte>)
      returns (turn: Turn, ghost chunk: seq<byte>)
      requires Valid() && r.Valid() && Apart(r) && buff.data.Length > maxBuffSz
      requires cf.Length == 256 && (forall c: byte :: cf[c] <==> c in terms) && sentinel in terms
      modifies r, r.data, buff, buff.data, core
      ensures Valid() && r.Valid() && Apart(r) && (r.data == old(r.data) || fresh(r.data))
      ensures buff.data == old(buff.data)
      ensures r.Contents() == old(r.Contents()) + chunk
      ensures turn == Found ==> EndsLine(chunk, terms) && old(core.rest) == chunk + Pending()
      ensures turn != Found ==> unchanged(buff) && unchanged(buff.data) && old(core.rest) == chunk + core.rest
      ensures turn == More ==> NoTerm(chunk, terms) && |core.rest| < |old(core.rest)|
      ensures turn == Ended ==> chunk == [] && (core.honest ==> core.rest == [])
    {
      hide NoTerm, EndsLine, EntryEnd;
      ghost var before := core.rest;
      var l, i := FillLine(r, cf, sentinel, terms);
      if l <= 0 {
        assert [] + core.rest == core.rest;
        return Ended, [];
      }
      if i < l {
        chunk := KeepLine(r, l, i, before, terms);
        turn := Found;
      } else {
        chunk := before[..l];
        NoTermByEnd(chunk, terms, i);
        TakeChunk(r, l, chunk);
        turn := More;
      }
    }

    /** The chunk of l octets has its first terminator at i: the line is kept, the rest goes back. */
    method KeepLine(r: BString, l: nat, i: nat, ghost before: seq<byte>, ghost terms: set<byte>)
      returns (ghost chunk: seq<byte>)
      requires Valid() && r.Valid() && Apart(r) && i < l <= maxBuffSz < buff.data.Length && l <= |before|
      requires core.rest == before[l..] && i == EntryEnd(before[..l], terms, 0)
      requires r.slen + l < r.data.Length && r.data[r.slen..r.slen + l] == before[..l]
      modifies r`slen, buff`slen, buff.data
      ensures Valid() && r.Valid() && r.Contents() == old(r.Contents()) + chunk
      ensures EndsLine(chunk, terms) && before == chunk + Pending()
    {
      hide EndsLine, EntryEnd;
      LineOfChunk(before[..l], terms);
      GiveBack(r, l, i + 1, before[..l]);
      Regrouped(before, l, i + 1);
      chunk := before[..l][..i + 1];
    }

    /** The direct reads of bsreadlna, once the buffer held no terminator. */
    method ReadLineDirect(r: BString, cf: array<bool>, sentinel: byte, ghost terms: set<byte>)
      returns (ended: bool, ghost out: seq<byte>)
      requires Valid() && r.Valid() && Apart(r) && buff.data.Length > maxBuffSz
      requires cf.Length == 256 && (forall c: byte :: cf[c] <==> c in terms) && sentinel in terms
      modifies this, r, r.data, buff, buff.data, core
      ensures Valid() && r.Valid() && Apart(r) && (r.data == old(r.data) || fresh(r.data))
      ensures buff.data == old(buff.data)
      ensures r.Contents() == old(r.Contents()) + out && old(core.rest) == out + Pending()
      ensures ended ==> NoTerm(out, terms) && buff.slen == 0 && isEOF && (core.honest ==> core.rest == [])
      ensures !ended ==> EndsLine(out, terms) && isEOF == old(isEOF)
    {
      hide NoTerm, EndsLine, EntryEnd;
      out, ended := [], false;
      NothingNoTerm(terms);
      while true
        invariant Valid() && r.Valid() && Apart(r) && (r.data == old(r.data) || fresh(r.data))
        invariant unchanged(buff) && unchanged(buff.data) && isEOF == old(isEOF)
        invariant r.Contents() == old(r.Contents()) + out && NoTerm(out, terms) && old(core.rest) == out + core.rest
        decreases |core.rest|
      {
        var turn; ghost var chunk;
        turn, chunk := LineTurn(r, cf, sentinel, terms);
        Assoc(old(r.Contents()), out, chunk);
        if turn == Ended {
          buff.slen := 0;
          isEOF := true;
          ended := true;
          return;
        }
        Assoc(out, chunk, if turn == Found then Pending() else core.rest);
        LineJoins(out, chunk, terms);
        out := out + chunk;
        if turn == Found { return; }
      }
    }

    /** r->slen += l, for a chunk that was read behind r's contents. */
    method TakeChunk(r: BString, l: nat, ghost chunk: seq<byte>)
      requires r.Valid() && r.slen + l < r.data.Length && chunk == r.data[r.slen..r.slen + l]
      modifies r`slen
      ensures r.Valid() && r.Contents() == old(r.Contents()) + chunk
    {
      r.slen := r.slen + l;
    }

    /** Keep n octets of the chunk of l octets behind r's contents; the rest replaces the buffer. */
    method GiveBack(r: BString, l: nat, n: nat, ghost chunk: seq<byte>)
      requires Valid() && r.Valid() && Apart(r) && n <= l <= maxBuffSz < buff.data.Length
      requires r.slen + l < r.data.Length && chunk == r.data[r.slen..r.slen + l]
      modifies r`slen, buff`slen, buff.data
      ensures Valid() && r.Valid()
      ensures r.Contents() == old(r.Contents()) + chunk[..n]
      ensures buff.Contents() == chunk[n..]
    {
      r.slen := r.slen + n;
      buff.slen := l - n;
      forall k | 0 <= k < l - n {
        buff.data[k] := r.data[r.slen + k];
      }
    }

    /** The next line is in the buffer: its n octets go to r and leave the buffer. */
    method TakeBuffered(r: BString, n: nat)
      requires Valid() && r.Valid() && Apart(r) && n <= buff.slen
      modifies r, r.data, buff, buff.data
      ensures Valid() && r.Valid() && Apart(r) && (r.data == old(r.data) || fresh(r.data)) &&
              buff.data == old(buff.data)
      ensures r.Contents() == old(r.Contents()) + old(buff.Contents())[..n]
      ensures buff.Contents() == old(buff.Contents())[n..]
    {
      assert buff.data[..n] == buff.Contents()[..n];
      r.Concat(buff.data[..n]);
      buff.DeleteFront(n);
    }

    /** bsreadlna and bsreadlnsa, with the terminator test as a field: append the next line to r. */
    method ReadLine(r: BString, cf: array<bool>, sentinel: byte, ghost terms: set<byte>)
      returns (ret: int, ghost out: seq<byte>)
      requires Valid() && r.Valid() && Apart(r)
      requires cf.Length == 256 && (forall c: byte :: cf[c] <==> c in terms) && sentinel in terms
      modifies this, r, r.data, buff, buff.data, core
      ensures Valid() && r.Valid() && Apart(r)
      ensures (r.data == old(r.data) || fresh(r.data)) && (buff.data == old(buff.data) || fresh(buff.data))
      ensures r.Contents() == old(r.Contents()) + out && old(Pending()) == out + Pending()
      ensures ret == (if out == [] then BSTR_ERR else BSTR_OK)
      ensures EndsLine(out, terms) || (NoTerm(out, terms) && buff.slen == 0 && isEOF)
      ensures core.honest ==> out == FirstLine(old(Pending()), terms)
    {
      hide NoTerm, EndsLine, EntryEnd, FirstLine;
      var i := ScanBuffer(cf, sentinel, terms);
      if i < buff.slen {
        out := LineFromBuffer(r, i, terms);
        ret := BSTR_OK;
      } else {
        NoTermByEnd(buff.Contents(), terms, i);
        ret, out := ReadLineOn(r, cf, sentinel, terms);
      }
    }

    /** Room for a direct read and a sentinel, and the scan of what is buffered. */
    method ScanBuffer(cf: array<bool>, sentinel: byte, ghost terms: set<byte>) returns (i: nat)
      requires Valid() && cf.Length == 256 && (forall c: byte :: cf[c] <==> c in terms) && sentinel in terms
      modifies buff, buff.data
      ensures Valid() && buff.data.Length > maxBuffSz && (buff.data == old(buff.data) || fresh(buff.data))
      ensures buff.Contents() == old(buff.Contents()) && i <= buff.slen && i == EntryEnd(buff.Contents(), terms, 0)
    {
      hide EntryEnd;
      var l := buff.slen;
      buff.Alloc(maxBuffSz + 1);
      buff.data[l] := sentinel;
      assert buff.data[0..l] == buff.Contents();
      i := ScanField(buff.data, 0, l, cf, terms);
    }

    /** The first terminator is in the buffer: the line goes to r. */
    method LineFromBuffer(r: BString, i: nat, ghost terms: set<byte>) returns (ghost out: seq<byte>)
      requires Valid() && r.Valid() && Apart(r) && i < buff.slen && i == EntryEnd(buff.Contents(), terms, 0)
      modifies r, r.data, buff, buff.data
      ensures Valid() && r.Valid() && Apart(r)
      ensures (r.data == old(r.data) || fresh(r.data)) && buff.data == old(buff.data)
      ensures r.Contents() == old(r.Contents()) + out && old(Pending()) == out + Pending()
      ensures out != [] && EndsLine(out, terms) && out == FirstLine(old(Pending()), terms)
    {
      hide EndsLine, EntryEnd, FirstLine, NoTerm;
      ghost var b0 := buff.Contents();
      out := b0[..i + 1];
      LineOfChunk(b0, terms);
      TakeBuffered(r, i + 1);
      Assoc(out, b0[i + 1..], core.rest);
      assert b0 == out + b0[i + 1..];
      WholeLineIsFirst(out, Pending(), terms);
    }

    /** The rest of bsreadlna: the whole buffer goes to r, then the direct reads follow. */
    method ReadLineOn(r: BString, cf: array<bool>, sentinel: byte, ghost terms: set<byte>)
      returns (ret: int, ghost out: seq<byte>)
      requires Valid() && r.Valid() && Apart(r) && buff.data.Length > maxBuffSz
      requires cf.Length == 256 && (forall c: byte :: cf[c] <==> c in terms) && sentinel in terms
      requires NoTerm(buff.Contents(), terms)
      modifies this, r, r.data, buff, buff.data, core
      ensures Valid() && r.Valid() && Apart(r)
      ensures (r.data == old(r.data) || fresh(r.data)) && buff.data == old(buff.data)
      ensures r.Contents() == old(r.Contents()) + out && old(Pending()) == out + Pending()
      ensures ret == (if out == [] then BSTR_ERR else BSTR_OK)
      ensures EndsLine(out, terms) || (NoTerm(out, terms) && buff.slen == 0 && isEOF)
      ensures core.honest ==> out == FirstLine(old(Pending()), terms)
    {
      hide NoTerm, EndsLine, EntryEnd, FirstLine;
      ghost var b0, direct := buff.Contents(), [];
      var rlo, ended := r.slen, false;
      r.Concat(buff.data[..buff.slen]);
      ended, direct := ReadLineDirect(r, cf, sentinel, terms);
      out := b0 + direct;
      LineJoins(b0, direct, terms);
      Assoc(b0, direct, Pending());
      Assoc(old(r.Contents()), b0, direct);
      WholeLineIsFirst(out, Pending(), terms);
      LineNonEmpty(out, terms);
      ret := if ended && r.slen == rlo then BSTR_ERR else BSTR_OK;
    }

    /** bsreadlna */
    method ReadLn(r: BString, terminator: byte) returns (ret: int, ghost out: seq<byte>)
      requires Valid() && r.Valid() && Apart(r)
      modifies this, r, r.data, buff, buff.data, core
      ensures Valid() && r.Valid() && Apart(r)
      ensures (r.data == old(r.data) || fresh(r.data)) && (buff.data == old(buff.data) || fresh(buff.data))
      ensures r.Contents() == old(r.Contents()) + out && old(Pending()) == out + Pending()
      ensures ret == (if out == [] then BSTR_ERR else BSTR_OK)
      ensures EndsLine(out, {terminator}) || (NoTerm(out, {terminator}) && buff.slen == 0 && isEOF)
      ensures core.honest ==> out == FirstLine(old(Pending()), {terminator})
    {
      var cf := new bool[256](x => x == terminator);
      ret, out := ReadLine(r, cf, terminator, {terminator});
    }

    /** bsreadlnsa: any octet of term ends a line; an empty term is refused. */
    method ReadLns(r: BString, term: seq<byte>) returns (ret: int, ghost out: seq<byte>)
      requires Valid() && r.Valid() && Apart(r)
      modifies this, r, r.data, buff, buff.data, core
      ensures Valid() && r.Valid() && Apart(r)
      ensures (r.data == old(r.data) || fresh(r.data)) && (buff.data == old(buff.data) || fresh(buff.data))
      ensures r.Contents() == old(r.Contents()) + out && old(Pending()) == out + Pending()
      ensures ret == (if out == [] then BSTR_ERR else BSTR_OK)
      ensures term == [] ==> out == []
      ensures term != [] ==> EndsLine(out, ToSet(term)) || (NoTerm(out, ToSet(term)) && buff.slen == 0 && isEOF)
      ensures term != [] && core.honest ==> out == FirstLine(old(Pending()), ToSet(term))
    {
      if |term| == 1 {
        assert ToSet(term) == {term[0]};
        ret, out := ReadLn(r, term[0]);
      } else if |term| < 1 {
        out := [];
        assert r.Contents() + [] == r.Contents() && [] + Pending() == Pending();
        ret := BSTR_ERR;
      } else {
        var cf := BuildCharField(term);
        ret, out := ReadLine(r, cf, term[0], ToSet(term));
      }
    }

    /** The direct branch of bsreada: nothing is buffered and r has room for all of n. */
    method ReadDirect(r: BString, n: nat) returns (ret: int, ghost out: seq<byte>)
      requires Valid() && r.Valid() && Apart(r) && buff.slen == 0 && n > 0 && r.slen + n < r.data.Length
      modifies this, r`slen, r.data, core
      ensures Valid() && r.Valid()
      ensures r.Contents() == old(r.Contents()) + out && old(core.rest) == out + core.rest
      ensures ret == (if out == [] then BSTR_ERR else BSTR_OK) && |out| <= n
      ensures out == [] ==> Over()
    {
      var l := core.Read(r.data, r.slen, n);
      if l <= 0 {
        isEOF := true;
        assert [] + core.rest == core.rest && r.Contents() + [] == r.Contents();
        return BSTR_ERR, [];
      }
      out := old(core.rest)[..l];
      assert r.data[r.slen..r.slen + l] == r.data[..][r.slen..r.slen + l] == out;
      TakeChunk(r, l, out);
      ret := BSTR_OK;
    }

    /** One turn of the loop of bsreada: the l octets at the front of the buffer's memory go to r,
        and up to m more are read there. */
    method Refill(r: BString, l: nat, m: nat) returns (l': int)
      requires Valid() && r.Valid() && Apart(r) && l < buff.data.Length && 0 < m <= maxBuffSz < buff.data.Length
      modifies r, r.data, buff.data, core
      ensures r.Valid() && Apart(r) && (r.data == old(r.data) || fresh(r.data))
      ensures r.Contents() == old(r.Contents()) + old(buff.data[..l])
      ensures l' <= m && l' <= |old(core.rest)|
      ensures l' <= 0 ==> core.rest == old(core.rest) && (core.honest ==> core.rest == [])
      ensures l' > 0 ==> buff.data[..l'] == old(core.rest)[..l'] && core.rest == old(core.rest)[l'..]
    {
      r.Concat(buff.data[..l]);
      l' := core.Read(buff.data, 0, m);
      if l' > 0 {
        assert buff.data[..l'] == buff.data[..][..l'] == old(core.rest)[..l'];
      }
    }

    /** bsreada: append up to n octets to r. Nothing is taken from the core that is not delivered:
        if the core was read at all, the buffer is left empty. */
    method ReadAhead(r: BString, n: int) returns (ret: int, ghost out: seq<byte>)
      requires Valid() && r.Valid() && Apart(r)
      modifies this, r, r.data, buff, buff.data, core
      ensures Valid() && r.Valid() && Apart(r)
      ensures (r.data == old(r.data) || fresh(r.data)) && (buff.data == old(buff.data) || fresh(buff.data))
      ensures r.Contents() == old(r.Contents()) + out && old(Pending()) == out + Pending()
      ensures ret == (if out == [] then BSTR_ERR else BSTR_OK)
      ensures if n <= 0 then out == [] else |out| <= n
      ensures core.rest == old(core.rest) || buff.slen == 0
      ensures n > 0 && out == [] ==> Over()
      ensures core.honest && n > 0 && (old(buff.slen) > 0 || old(r.data.Length) <= old(r.slen) + n) ==>
                |out| == n || Pending() == []
    {
      out := [];
      assert r.Contents() + [] == r.Contents() && [] + Pending() == Pending();
      if n <= 0 { return BSTR_ERR, out; }
      var l: int := buff.slen;
      if l == 0 {
        assert Pending() == core.rest;
        if isEOF { return BSTR_ERR, out; }
        if r.data.Length > r.slen + n {
          ret, out := ReadDirect(r, n);
          assert Pending() == core.rest;
          return;
        }
      }
      ret, out := ReadLoop(r, n);
    }

    /** The loop of bsreada. */
    method ReadLoop(r: BString, n0: nat) returns (ret: int, ghost out: seq<byte>)
      requires Valid() && r.Valid() && Apart(r) && n0 > 0
      modifies this, r, r.data, buff, buff.data, core
      ensures Valid() && r.Valid() && Apart(r)
      ensures (r.data == old(r.data) || fresh(r.data)) && (buff.data == old(buff.data) || fresh(buff.data))
      ensures r.Contents() == old(r.Contents()) + out && old(Pending()) == out + Pending()
      ensures ret == (if out == [] then BSTR_ERR else BSTR_OK) && |out| <= n0
      ensures core.rest == old(core.rest) || buff.slen == 0
      ensures |out| == n0 || Over()
    {
      var orslen, n, l: nat := r.slen, n0 + r.slen, buff.slen;
      buff.Alloc(maxBuffSz + 1);
      out := [];
      ghost var p0 := buff.Contents() + core.rest;
      assert buff.data[..l] == buff.Contents();
      assert [] + p0 == p0 && r.Contents() + [] == r.Contents();
      var done := false;
      while !done
        invariant Valid() && r.Valid() && Apart(r) && buff.data.Length > maxBuffSz
        invariant (r.data == old(r.data) || fresh(r.data)) && (buff.data == old(buff.data) || fresh(buff.data))
        invariant r.slen == orslen + |out| <= n && r.Contents() == old(r.Contents()) + out
        invariant !done ==> l < buff.data.Length && r.slen < n && p0 == out + (buff.data[..l] + core.rest)
        invariant !done ==> core.rest == old(core.rest) || l + r.slen <= n
        invariant done ==> p0 == out + Pending() && (core.rest == old(core.rest) || buff.slen == 0)
        invariant done ==> r.slen == n || Over()
        decreases !done, |core.rest|
      {
        ghost var chunk, r0 := [], r.Contents();
        done, l, chunk := ReadTurn(r, n, l);
        Assoc(old(r.Contents()), out, chunk);
        Assoc(out, chunk, if done then Pending() else buff.data[..l] + core.rest);
        out := out + chunk;
      }
      ret := if r.slen == orslen then BSTR_ERR else BSTR_OK;
    }

    /** A turn of the loop: what is wanted is taken from the l octets at the front of the buffer's memory
        if they are enough; otherwise all of them are taken, and more are read. */
    method ReadTurn(r: BString, n: nat, l: nat) returns (done: bool, l': nat, ghost chunk: seq<byte>)
      requires Valid() && r.Valid() && Apart(r) && maxBuffSz < buff.data.Length && l < buff.data.Length && r.slen < n
      modifies this`isEOF, r, r.data, buff, buff.data, core
      ensures Valid() && r.Valid() && Apart(r)
      ensures (r.data == old(r.data) || fresh(r.data)) && buff.data == old(buff.data)
      ensures r.Contents() == old(r.Contents()) + chunk && r.slen <= n
      ensures old(buff.data[..l]) + old(core.rest) ==
              chunk + if done then Pending() else if l' < buff.data.Length then buff.data[..l'] + core.rest else []
      ensures !done ==> l' < buff.data.Length && r.slen < n && l' + r.slen <= n && |core.rest| < |old(core.rest)|
      ensures done ==> r.slen == n || Over()
      ensures done ==> if l + old(r.slen) >= n then core.rest == old(core.rest) else buff.slen == 0
    {
      chunk := buff.data[..l];
      if l + r.slen >= n {
        var x := n - r.slen;
        TakeFront(r, l, x, chunk);
        TakenApart(chunk, core.rest, x);
        return true, l, chunk[..x];
      }
      var m := n - (r.slen + l);
      if m > maxBuffSz { m := maxBuffSz; }
      ghost var before := core.rest;
      var got := Refill(r, l, m);
      if got <= 0 {
        isEOF := true;
        buff.slen := 0;
        assert Pending() == core.rest;
        return true, l, chunk;
      }
      assert before == before[..got] + before[got..];
      done, l' := false, got;
    }

    /** The octets wanted are at the front of the buffer's memory, l of which hold data. */
    method TakeFront(r: BString, l: nat, x: nat, ghost chunk: seq<byte>)
      requires buff.data.Length > l && r.Valid() && Apart(r) && x <= l && chunk == buff.data[..l]
      modifies r, r.data, buff, buff.data
      ensures buff.Valid() && r.Valid() && Apart(r) && (r.data == old(r.data) || fresh(r.data)) &&
              buff.data == old(buff.data)
      ensures r.Contents() == old(r.Contents()) + chunk[..x]
      ensures buff.Contents() == chunk[x..]
    {
      buff.slen := l;
      assert buff.data[..x] == buff.Contents()[..x];
      r.Concat(buff.data[..x]);
      buff.DeleteFront(x);
    }

    /** bsunread: b will be delivered before anything else. */
    method Unread(b: seq<byte>)
      requires Valid()
      modifies buff, buff.data
      ensures Valid() && (buff.data == old(buff.data) || fresh(buff.data))
      ensures Pending() == b + old(Pending()) && core.rest == old(core.rest)
    {
      buff.InsertFront(b);
      Assoc(b, old(buff.Contents()), core.rest);
    }

    /** bspeek: r becomes a copy of the buffer; the stream does not move. */
    method Peek(r: BString)
      requires Valid() && r.Valid() && Apart(r)
      modifies r, r.data
      ensures r.Valid() && Apart(r) && (r.data == old(r.data) || fresh(r.data))
      ensures r.Contents() <= Pending() && r.Contents() == buff.Contents()
    {
      r.Truncate(0);
      r.Concat(buff.data[..buff.slen]);
    }
  }

  lemma TakenApart(chunk: seq<byte>, rest: seq<byte>, x: nat)
    requires x <= |chunk|
    ensures chunk + rest == chunk[..x] + (chunk[x..] + rest)
  {
  }

  lemma LineNonEmpty(out: seq<byte>, terms: set<byte>)
    ensures EndsLine(out, terms) ==> out != []
  {
  }

  lemma NothingNoTerm(terms: set<byte>)
    ensures NoTerm([], terms)
  {
  }

  lemma NoTermByEnd(s: seq<byte>, terms: set<byte>, i: nat)
    requires i == EntryEnd(s, terms, 0) && i >= |s|
    ensures NoTerm(s, terms)
  {
  }

  lemma LineOfChunk(chunk: seq<byte>, terms: set<byte>)
    ensures var i := EntryEnd(chunk, terms, 0); i < |chunk| ==> EndsLine(chunk[..i + 1], terms)
  {
    LineGrows([], chunk, terms);
    assert forall t: seq<byte> :: [] + t == t;
  }

  /** A prefix of what was left, split at l and at n, is still all of it. */
  lemma Regrouped(before: seq<byte>, l: nat, n: nat)
    requires n <= l <= |before|
    ensures before == before[..l][..n] + (before[..l][n..] + before[l..])
  {
  }

  lemma LineJoins(a: seq<byte>, b: seq<byte>, terms: set<byte>)
    requires NoTerm(a, terms)
    ensures NoTerm(b, terms) ==> NoTerm(a + b, terms)
    ensures EndsLine(b, terms) ==> EndsLine(a + b, terms)
  {
    EntryEndAppend(a, b, terms, 0);
  }

  /** What a run of stream operations did: octets delivered, or octets pushed back. */
  datatype Event = Out(bytes: seq<byte>) | In(bytes: seq<byte>)

  /** The events lead from pending octets p0 to pending octets p1. */
  ghost predicate Follows(p0: seq<byte>, events: seq<Event>, p1: seq<byte>)
    decreases |events|
  {
    if events == [] then p0 == p1
    else match events[0]
      case Out(b) => b <= p0 && Follows(p0[|b|..], events[1..], p1)
      case In(b) => Follows(b + p0, events[1..], p1)
  }

  lemma {:induction false} FollowsAppend(p0: seq<byte>, events: seq<Event>, p1: seq<byte>, e: Event, p2: seq<byte>)
    requires Follows(p0, events, p1) && Follows(p1, [e], p2)
    ensures Follows(p0, events + [e], p2)
    decreases |events|
  {
    if events == [] {
      assert events + [e] == [e];
    } else {
      assert (events + [e])[1..] == events[1..] + [e];
      match events[0]
      case Out(b) => FollowsAppend(p0[|b|..], events[1..], p1, e, p2);
      case In(b) => FollowsAppend(b + p0, events[1..], p1, e, p2);
    }
  }

  /** Everything delivered by the events, in order. */
  function Taken(events: seq<Event>): (s: seq<byte>) {
    if events == [] then []
    else (if events[0].Out? then events[0].bytes else []) + Taken(events[1..])
  }

  /** The stream s with every push-back spliced in at the place, counted in octets delivered so
      far, where it happened. */
  function Spliced(s: seq<byte>, at: nat, events: seq<Event>): (t: seq<byte>)
    requires at <= |s|
    decreases |events|
  {
    if events == [] then s
    else match events[0]
      case Out(b) => if at + |b| <= |s| then Spliced(s, at + |b|, events[1..]) else s
      case In(b) => Spliced(s[..at] + b + s[at..], at, events[1..])
  }

  /** Over any run, what was delivered and what is still pending make up the original stream with
      the push-backs spliced in. */
  lemma {:induction false} RunConserves(done: seq<byte>, p0: seq<byte>, events: seq<Event>, p1: seq<byte>)
    requires Follows(p0, events, p1)
    ensures done + Taken(events) + p1 == Spliced(done + p0, |done|, events)
    decreases |events|
  {
    if events != [] {
      var rest := events[1..];
      match events[0]
      case Out(b) =>
        RunConserves(done + b, p0[|b|..], rest, p1);
        OutKeeps(done, b, p0, Taken(rest), p1);
      case In(b) =>
        RunConserves(done, b + p0, rest, p1);
        InKeeps(done, b, p0);
        assert [] + Taken(rest) == Taken(rest);
    } else {
      assert done + [] + p1 == done + p0;
    }
  }

  lemma OutKeeps(done: seq<byte>, b: seq<byte>, p0: seq<byte>, t: seq<byte>, p1: seq<byte>)
    requires b <= p0
    ensures done + b + p0[|b|..] == done + p0
    ensures done + b + t + p1 == done + (b + t) + p1
  {
  }

  lemma InKeeps(done: seq<byte>, b: seq<byte>, p0: seq<byte>)
    ensures (done + p0)[..|done|] + b + (done + p0)[|done|..] == done + (b + p0)
  {
  }

  /** An operation on a stream: the calls that read into r, bsunread and bspeek. */
  datatype Op = Line(terminator: byte) | Lines(term: seq<byte>) | Ahead(n: int) | Back(b: seq<byte>) | Look

  /** out is the next line of what is pending, and all of it if the reader is honest. */
  ghost predicate IsLine(honest: bool, out: seq<byte>, p: seq<byte>, terms: set<byte>) {
    out <= p && (EndsLine(out, terms) || NoTerm(out, terms)) && (honest ==> out == FirstLine(p, terms))
  }

  /** With p pending, the operation may put out into r. */
  ghost predicate Answers(honest: bool, op: Op, p: seq<byte>, out: seq<byte>) {
    match op
    case Line(terminator) => IsLine(honest, out, p, {terminator})
    case Lines(term) => if term == [] then out == [] else IsLine(honest, out, p, ToSet(term))
    case Ahead(n) =>
      out <= p && |out| <= (if n > 0 then n else 0) && (honest && n > 0 && out == [] ==> p == [])
    case Back(_) => out == []
    case Look => out <= p
  }

  /** What is pending after the operation. */
  function After(p: seq<byte>, op: Op, out: seq<byte>): (p': seq<byte>) {
    match op
    case Back(b) => b + p
    case Look => p
    case _ => if out <= p then p[|out|..] else p
  }

  /** What r holds after the operation: a read appends, a peek replaces. */
  function Holding(r: seq<byte>, op: Op, out: seq<byte>): (r': seq<byte>) {
    match op
    case Back(_) => r
    case Look => out
    case _ => r + out
  }

  /** The operations, answered with outs, lead from pending octets p0 to p1 and r from r0 to r1. */
  ghost predicate Serves(honest: bool, p0: seq<byte>, r0: seq<byte>, ops: seq<Op>, outs: seq<seq<byte>>,
                         p1: seq<byte>, r1: seq<byte>)
    decreases |ops|
  {
    && |ops| == |outs|
    && if ops == [] then p0 == p1 && r0 == r1
       else
         && Answers(honest, ops[0], p0, outs[0])
         && Serves(honest, After(p0, ops[0], outs[0]), Holding(r0, ops[0], outs[0]), ops[1..], outs[1..], p1, r1)
  }

  lemma {:induction false} ServesNext(honest: bool, p0: seq<byte>, r0: seq<byte>, ops: seq<Op>,
                                      outs: seq<seq<byte>>, p: seq<byte>, r: seq<byte>, op: Op, out: seq<byte>)
    requires Serves(honest, p0, r0, ops, outs, p, r) && Answers(honest, op, p, out)
    ensures Serves(honest, p0, r0, ops + [op], outs + [out], After(p, op, out), Holding(r, op, out))
    decreases |ops|
  {
    hide Answers, After, Holding;
    if ops == [] {
      assert ops + [op] == [op] && outs + [out] == [out];
    } else {
      assert (ops + [op])[1..] == ops[1..] + [op] && (outs + [out])[1..] == outs[1..] + [out];
      ServesNext(honest, After(p0, ops[0], outs[0]), Holding(r0, ops[0], outs[0]), ops[1..], outs[1..], p, r, op, out);
    }
  }

  /** The operations as deliveries and push-backs. */
  function Events(ops: seq<Op>, outs: seq<seq<byte>>): (events: seq<Event>)
    requires |ops| == |outs|
    decreases |ops|
  {
    if ops == [] then []
    else
      var event := match ops[0]
                   case Back(b) => In(b)
                   case Look => Out([])
                   case _ => Out(outs[0]);
      [event] + Events(ops[1..], outs[1..])
  }

  lemma {:induction false} ServesFollows(honest: bool, p0: seq<byte>, r0: seq<byte>, ops: seq<Op>,
                                         outs: seq<seq<byte>>, p1: seq<byte>, r1: seq<byte>)
    requires Serves(honest, p0, r0, ops, outs, p1, r1)
    ensures Follows(p0, Events(ops, outs), p1)
    decreases |ops|
  {
    hide IsLine;
    if ops != [] {
      IsLinePrefix(honest, outs[0], p0);
      var events := Events(ops[1..], outs[1..]);
      assert Events(ops, outs)[1..] == events;
      assert p0[0..] == p0;
      ServesFollows(honest, After(p0, ops[0], outs[0]), Holding(r0, ops[0], outs[0]), ops[1..], outs[1..], p1, r1);
    }
  }

  lemma IsLinePrefix(honest: bool, out: seq<byte>, p: seq<byte>)
    ensures forall terms :: IsLine(honest, out, p, terms) ==> out <= p
  {
  }

  /** Over any run of the operations, what reached the caller and what is still pending make up the
      original stream with the push-backs spliced in. */
  lemma RunDelivers(honest: bool, p0: seq<byte>, r0: seq<byte>, ops: seq<Op>, outs: seq<seq<byte>>,
                    p1: seq<byte>, r1: seq<byte>)
    requires Serves(honest, p0, r0, ops, outs, p1, r1)
    ensures Taken(Events(ops, outs)) + p1 == Spliced(p0, 0, Events(ops, outs))
  {
    hide Events, Follows, Spliced, Taken;
    ServesFollows(honest, p0, r0, ops, outs, p1, r1);
    RunConserves([], p0, Events(ops, outs), p1);
    assert [] + Taken(Events(ops, outs)) == Taken(Events(ops, outs)) && [] + p0 == p0;
  }

  /** A run of operations. outs are the octets that each of them put into r. */
  method RunOps(s: BStream, r: BString, ops: seq<Op>) returns (outs: seq<seq<byte>>)
    requires s.Valid() && r.Valid() && s.Apart(r)
    modifies s, r, r.data, s.buff, s.buff.data, s.core
    ensures s.Valid() && r.Valid() && |outs| == |ops|
    ensures Serves(s.core.honest, old(s.Pending()), old(r.Contents()), ops, outs, s.Pending(), r.Contents())
    ensures Taken(Events(ops, outs)) + s.Pending() == Spliced(old(s.Pending()), 0, Events(ops, outs))
  {
    hide Serves, Answers, After, Holding, Events, Spliced, Taken;
    outs := [];
    ghost var p0, r0 := s.Pending(), r.Contents();
    NothingServed(s.core.honest, p0, r0);
    assert ops[..0] == [];
    for i := 0 to |ops|
      invariant s.Valid() && r.Valid() && s.Apart(r) && |outs| == i
      invariant (r.data == old(r.data) || fresh(r.data)) && (s.buff.data == old(s.buff.data) || fresh(s.buff.data))
      invariant Serves(s.core.honest, p0, r0, ops[..i], outs, s.Pending(), r.Contents())
    {
      ghost var p, held := s.Pending(), r.Contents();
      var out := DoOp(s, r, ops[i]);
      ServesNext(s.core.honest, p0, r0, ops[..i], outs, p, held, ops[i], out);
      assert ops[..i + 1] == ops[..i] + [ops[i]];
      outs := outs + [out];
    }
    assert ops[..|ops|] == ops;
    RunDelivers(s.core.honest, p0, r0, ops, outs, s.Pending(), r.Contents());
  }

  lemma NothingServed(honest: bool, p: seq<byte>, r: seq<byte>)
    ensures Serves(honest, p, r, [], [], p, r)
  {
  }

  /** One operation, and what it put into r. */
  method DoOp(s: BStream, r: BString, op: Op) returns (out: seq<byte>)
    requires s.Valid() && r.Valid() && s.Apart(r)
    modifies s, r, r.data, s.buff, s.buff.data, s.core
    ensures s.Valid() && r.Valid() && s.Apart(r)
    ensures (r.data == old(r.data) || fresh(r.data)) && (s.buff.data == old(s.buff.data) || fresh(s.buff.data))
    ensures Answers(s.core.honest, op, old(s.Pending()), out)
    ensures s.Pending() == After(old(s.Pending()), op, out)
    ensures r.Contents() == Holding(old(r.Contents()), op, out)
  {
    match op
    case Back(b) =>
      s.Unread(b);
      out := [];
    case Look =>
      s.Peek(r);
      out := r.data[..r.slen];
    case _ =>
      out := DoRead(s, r, op);
  }

  /** The three operations that read. */
  method DoRead(s: BStream, r: BString, op: Op) returns (out: seq<byte>)
    requires s.Valid() && r.Valid() && s.Apart(r) && !op.Back? && !op.Look?
    modifies s, r, r.data, s.buff, s.buff.data, s.core
    ensures s.Valid() && r.Valid() && s.Apart(r)
    ensures (r.data == old(r.data) || fresh(r.data)) && (s.buff.data == old(s.buff.data) || fresh(s.buff.data))
    ensures Answers(s.core.honest, op, old(s.Pending()), out)
    ensures old(s.Pending()) == out + s.Pending() && r.Contents() == old(r.Contents()) + out
  {
    hide EndsLine, NoTerm, FirstLine, ToSet;
    ghost var p0, r0 := s.Pending(), r.Contents();
    ghost var taken;
    var n, ret := r.slen, 0;
    match op {
      case Line(terminator) => ret, taken := s.ReadLn(r, terminator);
      case Lines(term) => ret, taken := s.ReadLns(r, term);
      case Ahead(k) => ret, taken := s.ReadAhead(r, k);
    }
    out := r.data[n..r.slen];
    assert r.Contents() == r0 + taken && |r0| == n;
    assert out == r.Contents()[n..] == taken;
  }
}
