/** Splitting a stream through a callback, in reads of 256 octets with the tails pushed back. */
module StreamSplit {
  import opened Bytes
  import opened BStrings
  import opened Split
  import opened Stream

  const BSSSC_BUFF_LEN := 256

  /** Where the stream stands after the calls: right behind the octet that ended the last entry. */
  function Position(n: nat, calls: seq<Piece>): (p: nat)
    ensures p <= n
  {
    if calls == [] then 0
    else
      var last := calls[|calls| - 1];
      if last.ofs + |last.entry| + 1 < n then last.ofs + |last.entry| + 1 else n
  }

  /** A split of any text that begins with head makes the calls and then goes on behind head. */
  ghost predicate Passed(head: seq<byte>, terms: set<byte>, cb: Callback, calls: seq<Piece>) {
    forall w: seq<byte> {:trigger CharSplit(w, terms, |head|)} :: |head| <= |w| && w[..|head|] == head ==>
      Delivered(calls, CharSplit(w, terms, |head|), cb) == Delivered([], CharSplit(w, terms, 0), cb)
  }

  lemma PassedIn(w: seq<byte>, p: nat, terms: set<byte>, cb: Callback, calls: seq<Piece>)
    requires p <= |w| && Passed(w[..p], terms, cb, calls)
    ensures Delivered(calls, CharSplit(w, terms, p), cb) == Delivered([], CharSplit(w, terms, 0), cb)
  {
    hide Delivered, CharSplit;
    var head := w[..p];
    assert CharSplit(w, terms, |head|) == CharSplit(w, terms, p);
  }

  /** The split so far: entries up to p are delivered, the first i octets behind p are in b and
      hold no dividing octet, and b is followed by what the stream has pending. */
  ghost predicate Splitting(whole: seq<byte>, terms: set<byte>, cb: Callback, calls: seq<Piece>,
                            p: nat, i: nat, b: seq<byte>, pending: seq<byte>) {
    && p + i <= |whole| && i <= |b| && whole[p..] == b + pending
    && (forall k :: 0 <= k < i ==> b[k] !in terms)
    && Passed(whole[..p], terms, cb, calls)
  }

  lemma SplittingReads(whole: seq<byte>, terms: set<byte>, cb: Callback, calls: seq<Piece>,
                       p: nat, i: nat, b: seq<byte>, pending: seq<byte>, out: seq<byte>, pending': seq<byte>)
    requires Splitting(whole, terms, cb, calls, p, i, b, pending) && pending == out + pending'
    ensures Splitting(whole, terms, cb, calls, p, i, b + out, pending')
  {
    hide Passed;
    Assoc(b, out, pending');
  }

  /** The octet at e divides off the entry that began at p. */
  lemma CallDivides(whole: seq<byte>, p: nat, e: nat, terms: set<byte>, cb: Callback, calls: seq<Piece>)
    requires p <= e < |whole| && whole[e] in terms && forall k :: p <= k < e ==> whole[k] !in terms
    ensures var calls' := calls + [Piece(p, whole[p..e])];
            Delivered(calls, CharSplit(whole, terms, p), cb)
            == if cb(calls') < 0 then calls' else Delivered(calls', CharSplit(whole, terms, e + 1), cb)
  {
    hide Delivered, CharSplit, EntryEnd;
    EntryEndUnique(whole, terms, p, e);
    CharSplitStep(whole, terms, p);
    DeliveredCons(calls, Piece(p, whole[p..e]), CharSplit(whole, terms, e + 1), cb);
  }

  /** So the split has passed it, if the callback lets it go on. */
  lemma PassedEntry(whole: seq<byte>, p: nat, e: nat, terms: set<byte>, cb: Callback, calls: seq<Piece>)
    requires p <= e < |whole| && whole[e] in terms && forall k :: p <= k < e ==> whole[k] !in terms
    requires Passed(whole[..p], terms, cb, calls) && cb(calls + [Piece(p, whole[p..e])]) >= 0
    ensures Passed(whole[..e + 1], terms, cb, calls + [Piece(p, whole[p..e])])
  {
    hide Delivered, CharSplit;
    forall w: seq<byte> | e < |w| && w[..e + 1] == whole[..e + 1]
      ensures Delivered(calls + [Piece(p, whole[p..e])], CharSplit(w, terms, e + 1), cb)
              == Delivered([], CharSplit(w, terms, 0), cb)
    {
      SameHead(w, whole, p, e);
      PassedIn(w, p, terms, cb, calls);
      CallDivides(w, p, e, terms, cb, calls);
    }
  }

  lemma SameHead(w: seq<byte>, whole: seq<byte>, p: nat, e: nat)
    requires p <= e < |w| && e < |whole| && w[..e + 1] == whole[..e + 1]
    ensures w[..p] == whole[..p] && w[p..e] == whole[p..e]
    ensures forall k {:trigger w[k]} :: 0 <= k <= e ==> w[k] == whole[k]
  {
    var h := w[..e + 1];
    assert forall k {:trigger w[k]} :: 0 <= k < |h| ==> h[k] == w[k];
    assert forall k {:trigger whole[k]} :: 0 <= k < |h| ==> h[k] == whole[k];
  }

  /** Where the entry is in the whole. */
  lemma CutOut(whole: seq<byte>, p: nat, i: nat, b: seq<byte>, pending: seq<byte>)
    requires p <= |whole| && whole[p..] == b + pending && i < |b|
    ensures p + i < |whole| && whole[p..p + i] == b[..i] && whole[p + i + 1..] == b[i + 1..] + pending
    ensures forall k {:trigger whole[k]} :: p <= k <= p + i ==> whole[k] == b[k - p]
  {
    SuffixOfSuffix(whole, p, p + i);
    SuffixOfSuffix(whole, p, p + i + 1);
    assert forall k :: p <= k <= p + i ==> whole[k] == whole[p..][k - p];
  }

  /** The octet at i divides: entry b[..i] is called, and the split goes on behind it. */
  lemma SplittingCalls(whole: seq<byte>, terms: set<byte>, cb: Callback, calls: seq<Piece>,
                       p: nat, i: nat, b: seq<byte>, pending: seq<byte>)
    requires Splitting(whole, terms, cb, calls, p, i, b, pending) && i < |b| && b[i] in terms
    ensures p + i < |whole| && b[i + 1..] + pending == whole[p + i + 1..]
    ensures var calls' := calls + [Piece(p, b[..i])];
            if cb(calls') < 0 then calls' == Delivered([], CharSplit(whole, terms, 0), cb)
            else Splitting(whole, terms, cb, calls', p + i + 1, 0, [], b[i + 1..] + pending)
  {
    hide Delivered, CharSplit, Passed;
    CutOut(whole, p, i, b, pending);
    PassedIn(whole, p, terms, cb, calls);
    CallDivides(whole, p, p + i, terms, cb, calls);
    assert [] + (b[i + 1..] + pending) == b[i + 1..] + pending;
    if cb(calls + [Piece(p, b[..i])]) >= 0 {
      PassedEntry(whole, p, p + i, terms, cb, calls);
    }
  }

  lemma SplittingScans(whole: seq<byte>, terms: set<byte>, cb: Callback, calls: seq<Piece>,
                       p: nat, i: nat, b: seq<byte>, pending: seq<byte>)
    requires Splitting(whole, terms, cb, calls, p, i, b, pending) && i < |b| && b[i] !in terms
    ensures p + i < |whole| && Splitting(whole, terms, cb, calls, p, i + 1, b, pending)
  {
    hide Passed;
  }

  /** No more octets come, and none in b divides: b is the last entry of what has come. */
  lemma SplittingEnds(whole: seq<byte>, terms: set<byte>, cb: Callback, calls: seq<Piece>,
                      p: nat, b: seq<byte>, pending: seq<byte>)
    requires Splitting(whole, terms, cb, calls, p, |b|, b, pending)
    ensures calls + [Piece(p, b)] == Delivered([], CharSplit(whole[..p + |b|], terms, 0), cb)
    ensures whole[p + |b|..] == pending
  {
    hide EntryEnd, CharSplit, Delivered, Passed;
    var seen := whole[..p + |b|];
    SliceOfSlice(whole, 0, p + |b|, 0, p);
    SuffixOfSuffix(whole, p, p + |b|);
    assert seen[..p] == whole[..p] && seen[p..] == whole[p..][..|b|] == b;
    assert forall k :: p <= k < |seen| ==> seen[k] == seen[p..][k - p];
    PassedIn(seen, p, terms, cb, calls);
    LastEntry(seen, p, terms, cb, calls);
  }

  lemma LastEntry(seen: seq<byte>, p: nat, terms: set<byte>, cb: Callback, calls: seq<Piece>)
    requires p <= |seen| && forall k :: p <= k < |seen| ==> seen[k] !in terms
    ensures Delivered(calls, CharSplit(seen, terms, p), cb) == calls + [Piece(p, seen[p..])]
  {
    hide EntryEnd, CharSplit, Delivered;
    var piece := Piece(p, seen[p..]);
    EntryEndUnique(seen, terms, p, |seen|);
    CharSplitStep(seen, terms, p);
    assert seen[p..|seen|] == seen[p..] && [piece] + [] == [piece];
    DeliveredLast(calls, piece, cb);
  }

  lemma SplittingBegins(whole: seq<byte>, terms: set<byte>, cb: Callback)
    ensures Splitting(whole, terms, cb, [], 0, 0, [], whole)
  {
    assert whole[..0] == [] && whole[0..] == [] + whole;
  }

  /** bssplitscb: the same calls, with the same answers, as bsplitscb on what the stream has to give,
      however its reads and push-backs fall; and the stream is left right behind the last entry.
      What it has to give is everything, unless its reader says nothing before the end. */
  method SplitStream(s: BStream, splitStr: seq<byte>, cb: Callback)
    returns (ret: int, calls: seq<Piece>, ghost seen: seq<byte>)
    requires s.Valid()
    modifies s, s.buff, s.buff.data, s.core
    ensures s.Valid() && seen <= old(s.Pending())
    ensures seen == old(s.Pending()) || (s.Over() && !s.core.honest)
    ensures calls == Delivered([], AnySplit(seen, splitStr, 0), cb) && ret == Answer(calls, cb)
    ensures s.Pending() == old(s.Pending())[Position(|seen|, calls)..]
  {
    var buff := new BString([]);
    if |splitStr| == 0 {
      ret, calls, seen := DeliverWhole(s, buff, cb);
    } else {
      var cf := BuildCharField(splitStr);
      ret, calls, seen := SplitStreamLoop(s, buff, cf, ToSet(splitStr), cb);
    }
  }

  /** The branch for an empty splitStr: read to the end, call once. */
  method DeliverWhole(s: BStream, buff: BString, cb: Callback)
    returns (ret: int, calls: seq<Piece>, ghost seen: seq<byte>)
    requires s.Valid() && buff.Valid() && buff.slen == 0 && s.Apart(buff)
    modifies s, s.buff, s.buff.data, s.core, buff, buff.data
    ensures s.Valid() && s.Over() && old(s.Pending()) == seen + s.Pending()
    ensures calls == [Piece(0, seen)] && ret == Answer(calls, cb)
  {
    ghost var whole := s.Pending();
    ret := BSTR_OK;
    while ret >= 0
      invariant s.Valid() && buff.Valid() && s.Apart(buff)
      invariant s.buff.data == old(s.buff.data) || fresh(s.buff.data)
      invariant buff.data == old(buff.data) || fresh(buff.data)
      invariant whole == buff.Contents() + s.Pending()
      invariant ret < 0 ==> s.Over()
      decreases ret >= 0, |s.Pending()|
    {
      ghost var b, out := buff.Contents(), [];
      ret, out := s.ReadAhead(buff, BSSSC_BUFF_LEN);
      Assoc(b, out, s.Pending());
    }
    seen := buff.Contents();
    calls := [Piece(0, buff.data[..buff.slen])];
    ret := cb(calls);
    if ret > 0 { ret := 0; }
  }

  /** Everything in buff behind its octet i goes back to the stream; buff keeps what is before. */
  method PushBackTail(s: BStream, buff: BString, i: nat)
    requires s.Valid() && buff.Valid() && s.Apart(buff) && i < buff.slen
    modifies s.buff, s.buff.data, buff`slen
    ensures s.Valid() && buff.Valid() && s.Apart(buff)
    ensures s.buff.data == old(s.buff.data) || fresh(s.buff.data)
    ensures s.Pending() == old(buff.Contents())[i + 1..] + old(s.Pending()) && s.core.rest == old(s.core.rest)
    ensures buff.Contents() == old(buff.Contents())[..i] && buff.slen == i
  {
    assert buff.data[i + 1..buff.slen] == buff.Contents()[i + 1..];
    s.Unread(buff.data[i + 1..buff.slen]);
    buff.Truncate(i);
  }

  method SplitStreamLoop(s: BStream, buff: BString, cf: array<bool>, ghost terms: set<byte>, cb: Callback)
    returns (ret: int, calls: seq<Piece>, ghost seen: seq<byte>)
    requires s.Valid() && buff.Valid() && buff.slen == 0 && s.Apart(buff)
    requires cf.Length == 256 && (forall c: byte :: cf[c] <==> c in terms)
    modifies s, s.buff, s.buff.data, s.core, buff, buff.data
    ensures s.Valid() && seen <= old(s.Pending())
    ensures seen == old(s.Pending()) || (s.Over() && !s.core.honest)
    ensures calls == Delivered([], CharSplit(seen, terms, 0), cb) && ret == Answer(calls, cb)
    ensures s.Pending() == old(s.Pending())[Position(|seen|, calls)..]
  {
    hide Splitting, EntryEnd, CharSplit, Delivered;
    ghost var whole := s.Pending();
    var i, p := 0, 0;
    calls, seen := [], whole;
    SplittingBegins(whole, terms, cb);
    while true
      invariant s.Valid() && buff.Valid() && s.Apart(buff)
      invariant s.buff.data == old(s.buff.data) || fresh(s.buff.data)
      invariant buff.data == old(buff.data) || fresh(buff.data)
      invariant 0 <= i <= buff.slen && 0 <= p && p + i <= |whole|
      invariant Splitting(whole, terms, cb, calls, p, i, buff.Contents(), s.Pending())
      decreases |whole| - p - i
    {
      if i >= buff.slen {
        ReadMore(s, buff, whole, terms, cb, calls, p, i);
        if i >= buff.slen {
          ret, calls, seen := CallLast(s, buff, cb, calls, p, whole, terms);
          return;
        }
      }
      if cf[buff.data[i]] {
        ret, calls := CallEntry(s, buff, cb, calls, p, i, whole, terms);
        if ret < 0 { return; }
        p := p + i + 1;
        i := 0;
      } else {
        SplittingScans(whole, terms, cb, calls, p, i, buff.Contents(), s.Pending());
        i := i + 1;
      }
    }
  }

  /** 256 more octets, or none if the stream is over. */
  method ReadMore(s: BStream, buff: BString, ghost whole: seq<byte>, ghost terms: set<byte>, ghost cb: Callback,
                  ghost calls: seq<Piece>, ghost p: nat, ghost i: nat)
    requires s.Valid() && buff.Valid() && s.Apart(buff)
    requires Splitting(whole, terms, cb, calls, p, i, buff.Contents(), s.Pending())
    modifies s, s.buff, s.buff.data, s.core, buff, buff.data
    ensures s.Valid() && buff.Valid() && s.Apart(buff) && buff.slen >= old(buff.slen)
    ensures s.buff.data == old(s.buff.data) || fresh(s.buff.data)
    ensures buff.data == old(buff.data) || fresh(buff.data)
    ensures Splitting(whole, terms, cb, calls, p, i, buff.Contents(), s.Pending())
    ensures buff.slen == old(buff.slen) ==> s.Over()
  {
    hide Splitting;
    ghost var b, pending := buff.Contents(), s.Pending();
    var got; ghost var out;
    got, out := s.ReadAhead(buff, BSSSC_BUFF_LEN);
    SplittingReads(whole, terms, cb, calls, p, i, b, pending, out, s.Pending());
  }

  /** The stream is over: what is left is the last entry of what it has given. */
  method CallLast(s: BStream, buff: BString, cb: Callback, calls: seq<Piece>, p: nat,
                  ghost whole: seq<byte>, ghost terms: set<byte>)
    returns (ret: int, calls': seq<Piece>, ghost seen: seq<byte>)
    requires s.Valid() && buff.Valid() && s.Over() && p + buff.slen <= |whole|
    requires Splitting(whole, terms, cb, calls, p, buff.slen, buff.Contents(), s.Pending())
    ensures seen <= whole && (seen == whole || !s.core.honest)
    ensures calls' == Delivered([], CharSplit(seen, terms, 0), cb) && ret == Answer(calls', cb)
    ensures s.Pending() == whole[Position(|seen|, calls')..]
  {
    hide Splitting;
    seen := whole[..p + buff.slen];
    SplittingEnds(whole, terms, cb, calls, p, buff.Contents(), s.Pending());
    calls' := calls + [Piece(p, buff.data[..buff.slen])];
    ret := cb(calls');
    if ret > 0 { ret := 0; }
  }

  /** The octet at i divides: push the tail back, call with what is before, start the next entry. */
  method CallEntry(s: BStream, buff: BString, cb: Callback, calls: seq<Piece>, p: nat, i: nat,
                   ghost whole: seq<byte>, ghost terms: set<byte>)
    returns (ret: int, calls': seq<Piece>)
    requires s.Valid() && buff.Valid() && s.Apart(buff) && i < buff.slen && buff.data[i] in terms
    requires Splitting(whole, terms, cb, calls, p, i, buff.Contents(), s.Pending())
    modifies s.buff, s.buff.data, buff`slen
    ensures s.Valid() && buff.Valid() && s.Apart(buff)
    ensures s.buff.data == old(s.buff.data) || fresh(s.buff.data)
    ensures p + i < |whole| && ret == cb(calls') && calls' != []
    ensures ret < 0 ==> calls' == Delivered([], CharSplit(whole, terms, 0), cb)
    ensures ret < 0 ==> s.Pending() == whole[Position(|whole|, calls')..]
    ensures ret >= 0 ==> buff.slen == 0 && Splitting(whole, terms, cb, calls', p + i + 1, 0, buff.Contents(),
                                                     s.Pending())
  {
    hide Splitting;
    SplittingCalls(whole, terms, cb, calls, p, i, buff.Contents(), s.Pending());
    PushBackTail(s, buff, i);
    calls' := calls + [Piece(p, buff.data[..buff.slen])];
    ret := cb(calls');
    if ret < 0 { return; }
    buff.Truncate(0);
  }

  /** Stream and string agree: the two splitters make the same calls and answer alike, if the string
      is what the stream has to give. */
  method SplitBoth(s: BStream, str: seq<byte>, splitStr: seq<byte>, cb: Callback)
    returns (ret: int, calls: seq<Piece>, ret': int, calls': seq<Piece>, ghost seen: seq<byte>)
    requires s.Valid()
    modifies s, s.buff, s.buff.data, s.core
    ensures seen <= old(s.Pending()) && (s.core.honest ==> seen == old(s.Pending()))
    ensures str == seen ==> calls == calls' && ret == ret'
  {
    ret', calls' := SplitByAny(str, splitStr, 0, cb);
    ret, calls, seen := SplitStream(s, splitStr, cb);
  }
}
