/** Splitting by a character, by any of a set of characters, and by a string, all through a
    callback; and joining. */
module Split {
  import opened Wrappers
  import opened Bytes
  import opened BStrings
  import opened Search
  import opened Pieces

  /** One call of the callback: the offset and the text of an entry. */
  datatype Piece = Piece(ofs: nat, entry: seq<byte>)

  /** A callback answers its latest call knowing all its calls so far, the latest one last. */
  type Callback = seq<Piece> -> int

  /** The calls made when pieces are delivered in order until an answer is negative. */
  function Delivered(done: seq<Piece>, pieces: seq<Piece>, cb: Callback): (calls: seq<Piece>)
    decreases |pieces|
  {
    if pieces == [] then done
    else if cb(done + [pieces[0]]) < 0 then done + [pieces[0]]
    else Delivered(done + [pieces[0]], pieces[1..], cb)
  }

  /** A negative last answer is passed on; otherwise the split succeeded. */
  function Answer(calls: seq<Piece>, cb: Callback): (ret: int) {
    if |calls| > 0 && cb(calls) < 0 then cb(calls) else 0
  }

  /** Delivering piece first is one call, and then the rest if its answer is not negative. */
  lemma DeliveredCons(done: seq<Piece>, p: Piece, rest: seq<Piece>, cb: Callback)
    ensures Delivered(done, [p] + rest, cb) ==
            if cb(done + [p]) < 0 then done + [p] else Delivered(done + [p], rest, cb)
  {
  }

  lemma DeliveredNone(done: seq<Piece>, cb: Callback)
    ensures Delivered(done, [], cb) == done
  {
  }

  lemma DeliveredLast(done: seq<Piece>, p: Piece, cb: Callback)
    ensures Delivered(done, [p], cb) == done + [p]
  {
  }

  /** The calls made are the pieces from the front on, up to the first one that the callback answers with
      a negative number, and the answer is that number, or zero. */
  lemma {:induction false} DeliveredIs(done: seq<Piece>, pieces: seq<Piece>, cb: Callback)
    ensures var calls := Delivered(done, pieces, cb); var n := |calls| - |done|;
            && 0 <= n <= |pieces| && calls == done + pieces[..n]
            && (forall k :: 0 < k < n ==> cb(done + pieces[..k]) >= 0)
            && (n < |pieces| ==> n > 0 && cb(calls) < 0)
    decreases |pieces|
  {
    if pieces != [] {
      var next := done + [pieces[0]];
      DeliveredCons(done, pieces[0], pieces[1..], cb);
      assert [pieces[0]] + pieces[1..] == pieces;
      if cb(next) >= 0 {
        DeliveredIs(next, pieces[1..], cb);
        var calls := Delivered(done, pieces, cb);
        var n := |calls| - |done|;
        forall k | 0 < k < n
          ensures cb(done + pieces[..k]) >= 0
        {
          assert done + pieces[..k] == next + pieces[1..][..k - 1];
        }
        assert next + pieces[1..][..n - 1] == done + pieces[..n];
      } else {
        assert done + pieces[..1] == next;
      }
    } else {
      assert done + pieces[..0] == done;
    }
  }

  lemma AnswerIs(calls: seq<Piece>, cb: Callback)
    requires calls != []
    ensures Answer(calls, cb) == if cb(calls) < 0 then cb(calls) else 0
  {
  }

  function Entries(pieces: seq<Piece>): (e: seq<seq<byte>>)
    ensures |e| == |pieces|
  {
    seq(|pieces|, i requires 0 <= i < |pieces| => pieces[i].entry)
  }

  lemma EntriesCons(p: Piece, rest: seq<Piece>)
    ensures Entries([p] + rest) == [p.entry] + Entries(rest)
  {
  }

  /** Where the entry that starts at i ends: at the first octet in terms, or at the end. */
  function EntryEnd(s: seq<byte>, terms: set<byte>, i: nat): (e: nat)
    requires i <= |s|
    ensures i <= e <= |s| && (e < |s| ==> s[e] in terms)
    decreases |s| - i
  {
    if i == |s| || s[i] in terms then i else EntryEnd(s, terms, i + 1)
  }

  lemma {:induction false} EntryIsClear(s: seq<byte>, terms: set<byte>, i: nat)
    requires i <= |s|
    ensures forall k :: i <= k < EntryEnd(s, terms, i) ==> s[k] !in terms
    decreases |s| - i
  {
    if i < |s| && s[i] !in terms {
      EntryIsClear(s, terms, i + 1);
    }
  }

  lemma {:induction false} EntryEndUnique(s: seq<byte>, terms: set<byte>, i: nat, e: nat)
    requires i <= e <= |s| && (forall k :: i <= k < e ==> s[k] !in terms) && (e < |s| ==> s[e] in terms)
    ensures EntryEnd(s, terms, i) == e
    decreases |s| - i
  {
    if i < e {
      EntryEndUnique(s, terms, i + 1, e);
    }
  }

  /** The entries of s from p on, divided at every octet in terms. */
  function CharSplit(s: seq<byte>, terms: set<byte>, p: nat): (pieces: seq<Piece>)
    requires p <= |s|
    ensures |pieces| > 0
    decreases |s| - p
  {
    var e := EntryEnd(s, terms, p);
    [Piece(p, s[p..e])] + (if e < |s| then CharSplit(s, terms, e + 1) else [])
  }

  lemma CharSplitStep(s: seq<byte>, terms: set<byte>, p: nat)
    requires p <= |s|
    ensures var e := EntryEnd(s, terms, p);
            CharSplit(s, terms, p) == [Piece(p, s[p..e])] + (if e < |s| then CharSplit(s, terms, e + 1) else [])
  {
  }

  /** pieces divide s from p on: each entry is the text at its offset, free of dividing octets, the
      next one starts one dividing octet later, and the last one reaches the end. */
  ghost predicate Divides(s: seq<byte>, terms: set<byte>, p: nat, pieces: seq<Piece>)
    decreases |pieces|
  {
    && pieces != []
    && var e := p + |pieces[0].entry|;
       && e <= |s| && pieces[0] == Piece(p, s[p..e])
       && (forall k :: p <= k < e ==> s[k] !in terms)
       && (if |pieces| == 1 then e == |s| else e < |s| && s[e] in terms && Divides(s, terms, e + 1, pieces[1..]))
  }

  /** Splitting divides the string, and nothing else divides it. */
  lemma {:induction false} CharSplitDivides(s: seq<byte>, terms: set<byte>, p: nat)
    requires p <= |s|
    ensures Divides(s, terms, p, CharSplit(s, terms, p))
    decreases |s| - p
  {
    hide EntryEnd, CharSplit, Divides;
    var e := EntryEnd(s, terms, p);
    EntryIsClear(s, terms, p);
    CharSplitStep(s, terms, p);
    if e < |s| {
      CharSplitDivides(s, terms, e + 1);
    }
    DividesCons(s, terms, p, e, if e < |s| then CharSplit(s, terms, e + 1) else []);
  }

  lemma DividesCons(s: seq<byte>, terms: set<byte>, p: nat, e: nat, rest: seq<Piece>)
    requires p <= e <= |s| && (forall k :: p <= k < e ==> s[k] !in terms)
    requires if rest == [] then e == |s| else e < |s| && s[e] in terms && Divides(s, terms, e + 1, rest)
    ensures Divides(s, terms, p, [Piece(p, s[p..e])] + rest)
  {
  }

  lemma {:induction false} DividesUnique(s: seq<byte>, terms: set<byte>, p: nat, pieces: seq<Piece>)
    requires p <= |s| && Divides(s, terms, p, pieces)
    ensures pieces == CharSplit(s, terms, p)
    decreases |pieces|
  {
    hide EntryEnd, CharSplit, Divides;
    var e := DividesFirst(s, terms, p, pieces);
    EntryEndUnique(s, terms, p, e);
    CharSplitStep(s, terms, p);
    if |pieces| > 1 {
      DividesUnique(s, terms, e + 1, pieces[1..]);
    }
  }

  lemma DividesFirst(s: seq<byte>, terms: set<byte>, p: nat, pieces: seq<Piece>) returns (e: nat)
    requires Divides(s, terms, p, pieces)
    ensures p <= e <= |s| && (forall k :: p <= k < e ==> s[k] !in terms) && (e < |s| <==> |pieces| > 1)
    ensures pieces == [Piece(p, s[p..e])] + pieces[1..] && (e == |s| ==> pieces[1..] == [])
    ensures e < |s| ==> s[e] in terms && Divides(s, terms, e + 1, pieces[1..])
  {
    e := p + |pieces[0].entry|;
  }

  lemma FirstOfChar(s: seq<byte>, c: byte, p: nat)
    requires p <= |s|
    ensures var e := EntryEnd(s, {c}, p);
            FindFrom(s[p..], [c], 0) == if e < |s| then e - p else BSTR_ERR
  {
    var e := EntryEnd(s, {c}, p);
    EntryIsClear(s, {c}, p);
    var q: int := if e < |s| then e else BSTR_ERR;
    forall k: nat | p <= k && (q == BSTR_ERR || k < q)
      ensures !OccursAt(s, [c], k)
    {
      if k < |s| { assert s[k..k + 1] == [s[k]]; }
    }
    if e < |s| {
      assert s[e..e + 1] == [s[e]];
    }
    FirstInSuffix(s, [c], p, q);
  }

  /** Splitting at one character is cutting at the one-character separator. */
  lemma {:induction false} CharSplitIsCut(s: seq<byte>, c: byte, p: nat)
    requires p <= |s|
    ensures Entries(CharSplit(s, {c}, p)) == Cut(s[p..], [c])
    decreases |s| - p
  {
    hide CharSplit, Cut, EntryEnd, FindFrom, IsFirst, OccursAt, Entries;
    var e, t := EntryEnd(s, {c}, p), s[p..];
    FirstOfChar(s, c, p);
    CharSplitStep(s, {c}, p);
    CutAt(t, [c], FindFrom(t, [c], 0));
    SuffixOfSuffix(s, p, e);
    if e < |s| {
      CharSplitIsCut(s, c, e + 1);
      EntriesCons(Piece(p, s[p..e]), CharSplit(s, {c}, e + 1));
      SuffixOfSuffix(s, p, e + 1);
    } else {
      assert s[p..|s|] == s[p..] && [Piece(p, s[p..])] + [] == [Piece(p, s[p..])];
      LoneEntry(Piece(p, s[p..]));
    }
  }

  lemma LoneEntry(head: Piece)
    ensures Entries([head] + []) == [head.entry]
  {
  }

  lemma CutAt(t: seq<byte>, sep: seq<byte>, q: int)
    requires sep != [] && FindFrom(t, sep, 0) == q
    ensures q == BSTR_ERR || 0 <= q <= q + |sep| <= |t|
    ensures Cut(t, sep) == if q < 0 then [t] else [t[..q]] + Cut(t[q + |sep|..], sep)
  {
  }

  /** bsplitcb. It compares each octet with splitChar; a field of that one character answers the same. */
  method SplitByChar(str: seq<byte>, splitChar: byte, pos: int, cb: Callback)
    returns (ret: int, calls: seq<Piece>)
    ensures pos < 0 || pos > |str| ==> ret == BSTR_ERR && calls == []
    ensures 0 <= pos <= |str| ==>
              calls == Delivered([], CharSplit(str, {splitChar}, pos), cb) && ret == Answer(calls, cb)
  {
    calls := [];
    if pos < 0 || pos > |str| { return BSTR_ERR, []; }
    var cf := new bool[256](x => x == splitChar);
    ret, calls := SplitLoop(str, {splitChar}, cf, pos, cb);
  }

  /** The charField of the octets in b. */
  method BuildCharField(b: seq<byte>) returns (cf: array<bool>)
    ensures cf.Length == 256 && fresh(cf)
    ensures forall c: byte :: cf[c] <==> c in b
  {
    cf := new bool[256](_ => false);
    for i := 0 to |b|
      invariant forall c: byte :: cf[c] <==> c in b[..i]
    {
      cf[b[i]] := true;
    }
    assert b[..|b|] == b;
  }

  /** The loop that bsplitcb and bsplitscb share: scan to the end of the entry, call, go on one
      character later. */
  method SplitLoop(str: seq<byte>, ghost terms: set<byte>, cf: array<bool>, pos: nat, cb: Callback)
    returns (ret: int, calls: seq<Piece>)
    requires pos <= |str| && cf.Length == 256 && forall c: byte :: cf[c] <==> c in terms
    ensures calls == Delivered([], CharSplit(str, terms, pos), cb) && ret == Answer(calls, cb)
  {
    hide Delivered, CharSplit;
    calls := [];
    var p := pos;
    while true
      invariant pos <= p <= |str|
      invariant Delivered(calls, CharSplit(str, terms, p), cb) == Delivered([], CharSplit(str, terms, pos), cb)
      decreases |str| - p
    {
      var i := p;
      while i < |str|
        invariant p <= i <= |str| && EntryEnd(str, terms, i) == EntryEnd(str, terms, p)
      {
        if cf[str[i]] { break; }
        i := i + 1;
      }
      assert i == EntryEnd(str, terms, p);
      CharSplitStep(str, terms, p);
      var piece := Piece(p, str[p..i]);
      DeliveredCons(calls, piece, if i < |str| then CharSplit(str, terms, i + 1) else [], cb);
      calls := calls + [piece];
      ret := cb(calls);
      if ret < 0 { return; }
      p := i + 1;
      if p > |str| {
        DeliveredNone(calls, cb);
        return BSTR_OK, calls;
      }
    }
  }

  function ToSet(s: seq<byte>): (r: set<byte>)
    ensures forall c: byte :: c in r <==> c in s
  {
    set c | c in s :: c
  }

  /** What bsplitscb divides by: nothing divides by an empty splitStr, and pos is then ignored. */
  function AnySplit(str: seq<byte>, splitStr: seq<byte>, pos: nat): (pieces: seq<Piece>)
    requires pos <= |str|
  {
    if splitStr == [] then [Piece(0, str)] else CharSplit(str, ToSet(splitStr), pos)
  }

  /** bsplitscb */
  method SplitByAny(str: seq<byte>, splitStr: seq<byte>, pos: int, cb: Callback)
    returns (ret: int, calls: seq<Piece>)
    ensures pos < 0 || pos > |str| ==> ret == BSTR_ERR && calls == []
    ensures 0 <= pos <= |str| ==> calls == Delivered([], AnySplit(str, splitStr, pos), cb) && ret == Answer(calls, cb)
  {
    if pos < 0 || pos > |str| { return BSTR_ERR, []; }
    if |splitStr| == 0 {
      calls := [Piece(0, str)];
      assert [] + [Piece(0, str)] == calls;
      ret := cb(calls);
      if ret > 0 { ret := 0; }
      return;
    }
    if |splitStr| == 1 {
      assert ToSet(splitStr) == {splitStr[0]};
      ret, calls := SplitByChar(str, splitStr[0], pos, cb);
      return;
    }
    var cf := BuildCharField(splitStr);
    ret, calls := SplitLoop(str, ToSet(splitStr), cf, pos, cb);
  }

  /** The loop of bsplitstrcb from state (p, i): after a separator that ends at p the scan resumes
      at p + 1, so a second separator right behind the first is not seen. */
  function ScanSplit(s: seq<byte>, sep: seq<byte>, p: nat, i: nat): (pieces: seq<Piece>)
    requires p <= |s| && p <= i
    ensures |pieces| > 0
    decreases |s| - i
  {
    if i + |sep| > |s| then [Piece(p, s[p..])]
    else if OccursAt(s, sep, i) then
      var e := i + |sep|;
      [Piece(p, s[p..i])] + ScanSplit(s, sep, e, e + 1)
    else ScanSplit(s, sep, p, i + 1)
  }

  function Singles(s: seq<byte>, i: nat): (pieces: seq<Piece>)
    requires i <= |s|
    decreases |s| - i
  {
    if i == |s| then [] else [Piece(i, s[i..i + 1])] + Singles(s, i + 1)
  }

  lemma ScanStep(s: seq<byte>, sep: seq<byte>, p: nat, i: nat)
    requires p <= |s| && p <= i && sep != []
    ensures ScanSplit(s, sep, p, i) ==
            if i + |sep| > |s| then [Piece(p, s[p..])]
            else if OccursAt(s, sep, i) then [Piece(p, s[p..i])] + ScanSplit(s, sep, i + |sep|, i + |sep| + 1)
            else ScanSplit(s, sep, p, i + 1)
  {
  }

  /** What bsplitstrcb divides by. */
  function StrSplit(str: seq<byte>, splitStr: seq<byte>, pos: nat): (pieces: seq<Piece>)
    requires pos <= |str|
  {
    if |splitStr| == 0 then Singles(str, pos)
    else if |splitStr| == 1 then CharSplit(str, {splitStr[0]}, pos)
    else ScanSplit(str, splitStr, pos, pos)
  }

  /** bsplitstrcb */
  method SplitByStr(str: seq<byte>, splitStr: seq<byte>, pos: int, cb: Callback)
    returns (ret: int, calls: seq<Piece>)
    ensures pos < 0 || pos > |str| ==> ret == BSTR_ERR && calls == []
    ensures 0 <= pos <= |str| ==> calls == Delivered([], StrSplit(str, splitStr, pos), cb) && ret == Answer(calls, cb)
  {
    calls := [];
    if pos < 0 || pos > |str| { return BSTR_ERR, []; }
    if |splitStr| == 0 {
      ret, calls := SplitSingles(str, pos, cb);
      return;
    }
    if |splitStr| == 1 {
      ret, calls := SplitByChar(str, splitStr[0], pos, cb);
      return;
    }
    ret, calls := ScanLoop(str, splitStr, pos, cb);
  }

  /** bsplitstrcb with an empty separator: every octet is an entry. */
  method SplitSingles(str: seq<byte>, pos: nat, cb: Callback) returns (ret: int, calls: seq<Piece>)
    requires pos <= |str|
    ensures calls == Delivered([], Singles(str, pos), cb) && ret == Answer(calls, cb)
  {
    calls := [];
    var i := pos;
    while i < |str|
      invariant pos <= i <= |str|
      invariant Delivered(calls, Singles(str, i), cb) == Delivered([], Singles(str, pos), cb)
      invariant Answer(calls, cb) == 0
    {
      DeliveredCons(calls, Piece(i, str[i..i + 1]), Singles(str, i + 1), cb);
      calls := calls + [Piece(i, str[i..i + 1])];
      ret := cb(calls);
      if ret < 0 { return; }
      i := i + 1;
    }
    ret := BSTR_OK;
  }

  /** The main loop of bsplitstrcb. */
  method ScanLoop(str: seq<byte>, splitStr: seq<byte>, pos: nat, cb: Callback) returns (ret: int, calls: seq<Piece>)
    requires pos <= |str| && splitStr != []
    ensures calls == Delivered([], ScanSplit(str, splitStr, pos, pos), cb) && ret == Answer(calls, cb)
  {
    hide Delivered, ScanSplit;
    calls := [];
    var i, p := pos, pos;
    while i <= |str| - |splitStr|
      invariant pos <= p <= i && p <= |str|
      invariant Delivered(calls, ScanSplit(str, splitStr, p, i), cb) ==
                Delivered([], ScanSplit(str, splitStr, pos, pos), cb)
      decreases |str| - i
    {
      ScanStep(str, splitStr, p, i);
      if str[i..i + |splitStr|] == splitStr {
        var piece := Piece(p, str[p..i]);
        DeliveredCons(calls, piece, ScanSplit(str, splitStr, i + |splitStr|, i + |splitStr| + 1), cb);
        calls := calls + [piece];
        ret := cb(calls);
        if ret < 0 { return; }
        i := i + |splitStr|;
        p := i;
      }
      i := i + 1;
    }
    ScanStep(str, splitStr, p, i);
    DeliveredLast(calls, Piece(p, str[p..]), cb);
    calls := calls + [Piece(p, str[p..])];
    ret := cb(calls);
    if ret < 0 { return; }
    ret := BSTR_OK;
  }

  /** A callback that never objects sees every piece. */
  lemma {:induction false} DeliveredAll(done: seq<Piece>, pieces: seq<Piece>, cb: Callback)
    requires forall calls :: cb(calls) >= 0
    ensures Delivered(done, pieces, cb) == done + pieces
    decreases |pieces|
  {
    if pieces != [] {
      DeliveredAll(done + [pieces[0]], pieces[1..], cb);
      assert done + [pieces[0]] + pieces[1..] == done + pieces;
    }
  }

  /** bsplit: collect the entries of a split at one character. */
  method BSplit(str: seq<byte>, splitChar: byte) returns (list: seq<seq<byte>>)
    ensures list == Entries(CharSplit(str, {splitChar}, 0))
    ensures list == Cut(str, [splitChar]) && |list| > 0
  {
    var collect: Callback := calls => BSTR_OK;
    var ret, calls := SplitByChar(str, splitChar, 0, collect);
    DeliveredAll([], CharSplit(str, {splitChar}, 0), collect);
    CharSplitIsCut(str, splitChar, 0);
    assert str[0..] == str;
    list := Entries(calls);
  }

  /** bsplitstr: collect the entries of a split at a string. */
  method BSplitStr(str: seq<byte>, splitStr: seq<byte>) returns (list: seq<seq<byte>>)
    ensures list == Entries(StrSplit(str, splitStr, 0))
    ensures Join(list, splitStr) == str
  {
    var collect: Callback := calls => BSTR_OK;
    var ret, calls := SplitByStr(str, splitStr, 0, collect);
    DeliveredAll([], StrSplit(str, splitStr, 0), collect);
    JoinAfterSplitStr(str, splitStr);
    list := Entries(calls);
  }

  /** A string as bjoin leaves it: the length it claims, and what was copied. */
  datatype Joined = Joined(slen: int, data: seq<byte>)

  /** bjoin: one buffer, sized in a first pass and filled in a second. The size for no entries is that
      of a string of minus one separator: allocation fails if it is negative, and an empty string that
      claims minus one octet is what is left of a separator of one. */
  method BJoin(bl: seq<seq<byte>>, sep: Option<seq<byte>>) returns (r: Option<Joined>)
    ensures var gap := if sep.Some? then sep.value else [];
            r == if bl != [] then Some(Joined(|Join(bl, gap)|, Join(bl, gap)))
                 else if |gap| < 2 then Some(Joined(-|gap|, [])) else None
  {
    hide Join;
    ghost var gap := if sep.Some? then sep.value else [];
    var c := SizeUp(bl);
    if sep.Some? {
      c := c + (|bl| - 1) * |sep.value|;
    }
    assert sep.None? ==> (|bl| - 1) * |gap| == 0;
    NothingJoined([]);
    NothingJoined(gap);
    if |bl| > 0 {
      JoinSize(bl, gap);
    } else {
      assert (|bl| - 1) * |gap| == -|gap|;
    }
    if c < 0 { return None; }
    var data := FillIn(bl, sep);
    r := Some(Joined(c - 1, data));
  }

  /** The first pass: room for the entries and a NUL. */
  method SizeUp(bl: seq<seq<byte>>) returns (c: nat)
    ensures c == 1 + |Join(bl, [])|
  {
    hide Join;
    c := 1;
    var i := 0;
    NothingJoined([]);
    assert bl[0..] == bl;
    while i < |bl|
      invariant 0 <= i <= |bl| && c + |Join(bl[i..], [])| == 1 + |Join(bl, [])|
    {
      JoinStep(bl, i, []);
      c := c + |bl[i]|;
      i := i + 1;
    }
    assert bl[i..] == [];
  }

  /** The second pass. */
  method FillIn(bl: seq<seq<byte>>, sep: Option<seq<byte>>) returns (data: seq<byte>)
    ensures data == Join(bl, if sep.Some? then sep.value else [])
  {
    hide Join;
    ghost var gap := if sep.Some? then sep.value else [];
    data := [];
    var i := 0;
    NothingJoined(gap);
    assert bl[0..] == bl && [] + [] + Join(bl, gap) == Join(bl, gap);
    while i < |bl|
      invariant 0 <= i <= |bl|
      invariant data + (if 0 < i < |bl| then gap else []) + Join(bl[i..], gap) == Join(bl, gap)
    {
      JoinStep(bl, i, gap);
      JoinTurn(data, if i > 0 then gap else [], bl[i], if i + 1 < |bl| then gap else [], Join(bl[i + 1..], gap));
      if i > 0 && sep.Some? {
        data := data + sep.value;
      }
      data := data + bl[i];
      i := i + 1;
    }
    assert bl[i..] == [] && data + [] + [] == data;
  }

  lemma JoinTurn(data: seq<byte>, gap0: seq<byte>, entry: seq<byte>, gap: seq<byte>, rest: seq<byte>)
    ensures data + gap0 + (entry + gap + rest) == data + gap0 + entry + gap + rest
    ensures gap0 == [] ==> data + gap0 == data
  {
  }

  lemma NothingJoined(gap: seq<byte>)
    ensures Join([], gap) == []
  {
  }

  lemma JoinStep(bl: seq<seq<byte>>, i: nat, gap: seq<byte>)
    requires i < |bl|
    ensures Join(bl[i..], gap) == bl[i] + (if i + 1 < |bl| then gap else []) + Join(bl[i + 1..], gap)
  {
  }

  lemma {:induction false} JoinSize(bl: seq<seq<byte>>, gap: seq<byte>)
    requires |bl| > 0
    ensures |Join(bl, gap)| == |Join(bl, [])| + (|bl| - 1) * |gap|
    decreases |bl|
  {
    if |bl| > 1 {
      JoinSize(bl[1..], gap);
      var n, d := |bl| - 2, |gap|;
      assert (n + 1) * d == n * d + d;
    }
  }

  /** bjoin after bsplit restores any string. */
  lemma JoinAfterSplit(s: seq<byte>, c: byte)
    ensures Join(Entries(CharSplit(s, {c}, 0)), [c]) == s
  {
    CharSplitIsCut(s, c, 0);
    assert s[0..] == s;
    CutIsCut(s, [c]);
  }

  /** bsplit after bjoin restores a non-empty list exactly when no entry holds the separator. */
  lemma SplitAfterJoin(list: seq<seq<byte>>, c: byte)
    requires |list| > 0
    ensures Entries(CharSplit(Join(list, [c]), {c}, 0)) == list <==> forall k :: 0 <= k < |list| ==> c !in list[k]
  {
    hide CharSplit, Entries, Cut, IsCut, Join;
    var s := Join(list, [c]);
    CharSplitIsCut(s, c, 0);
    assert s[0..] == s;
    CutIsCut(s, [c]);
    if Cut(s, [c]) == list {
      CutIsClear(s, list, c);
    }
    if forall k :: 0 <= k < |list| ==> c !in list[k] {
      ClearIsCut(list, c);
      CutUnique(s, [c], list);
    }
  }

  lemma CutIsClear(s: seq<byte>, list: seq<seq<byte>>, c: byte)
    requires IsCut(s, [c], list)
    ensures forall k :: 0 <= k < |list| ==> c !in list[k]
  {
    hide Join, OccursAt, IsFirst;
    forall k | 0 <= k < |list|
      ensures c !in list[k]
    {
      if k < |list| - 1 {
        FirstClears(list[k], c, [c], |list[k]|);
      } else {
        assert list[k] + [] == list[k];
        FirstClears(list[k], c, [], BSTR_ERR);
      }
    }
  }

  lemma ClearIsCut(list: seq<seq<byte>>, c: byte)
    requires |list| > 0 && forall k :: 0 <= k < |list| ==> c !in list[k]
    ensures IsCut(Join(list, [c]), [c], list)
  {
    hide Join, OccursAt, IsFirst;
    forall k | 0 <= k < |list|
      ensures IsFirst(list[k] + [c], [c], 0, |list[k]|) && IsFirst(list[k], [c], 0, BSTR_ERR)
    {
      ClearIsFirst(list[k], c);
    }
  }

  lemma FirstClears(t: seq<byte>, c: byte, end: seq<byte>, q: int)
    requires q == |t| || q == BSTR_ERR
    requires IsFirst(t + end, [c], 0, q)
    ensures c !in t
  {
    forall k: nat | k < |t|
      ensures t[k] != c
    {
      assert !OccursAt(t + end, [c], k);
      assert (t + end)[k..k + 1] == [t[k]];
    }
  }

  lemma ClearIsFirst(t: seq<byte>, c: byte)
    requires c !in t
    ensures IsFirst(t + [c], [c], 0, |t|) && IsFirst(t, [c], 0, BSTR_ERR)
  {
    assert (t + [c])[|t|..|t| + 1] == [c];
    forall k: nat | k < |t|
      ensures !OccursAt(t + [c], [c], k) && !OccursAt(t, [c], k)
    {
      assert (t + [c])[k..k + 1] == [t[k]] == t[k..k + 1];
    }
  }

  lemma {:induction false} ScanJoins(s: seq<byte>, sep: seq<byte>, p: nat, i: nat)
    requires sep != [] && p <= |s| && p <= i
    ensures Join(Entries(ScanSplit(s, sep, p, i)), sep) == s[p..]
    decreases |s| - i
  {
    hide ScanSplit, Entries, Join;
    ScanStep(s, sep, p, i);
    if i + |sep| > |s| {
      JoinLone(Piece(p, s[p..]), sep);
    } else if OccursAt(s, sep, i) {
      var e := i + |sep|;
      ScanJoins(s, sep, e, e + 1);
      var rest := ScanSplit(s, sep, e, e + 1);
      EntriesCons(Piece(p, s[p..i]), rest);
      JoinCons(s[p..i], Entries(rest), sep);
      InThree(s, p, i, e);
    } else {
      ScanJoins(s, sep, p, i + 1);
    }
  }

  lemma JoinLone(piece: Piece, sep: seq<byte>)
    ensures Join(Entries([piece]), sep) == piece.entry
  {
    assert Entries([piece]) == [piece.entry];
  }

  lemma InThree(s: seq<byte>, p: nat, i: nat, e: nat)
    requires p <= i <= e <= |s|
    ensures s[p..] == s[p..i] + s[i..e] + s[e..]
  {
  }

  /** An empty separator sets every octet apart. */
  lemma {:induction false} SinglesAre(s: seq<byte>, i: nat, k: nat)
    requires i + k < |s|
    ensures |Singles(s, i)| == |s| - i && Singles(s, i)[k] == Piece(i + k, [s[i + k]])
    decreases |s| - i
  {
    if i + 1 < |s| {
      SinglesAre(s, i + 1, if k > 0 then k - 1 else 0);
    } else {
      assert Singles(s, i + 1) == [];
    }
    assert s[i..i + 1] == [s[i]];
  }

  /** The scan for any separator: a piece from p on ends at the first occurrence that starts at i or
      later; the next search starts one position behind the separator. */
  lemma {:induction false} ScanNext(s: seq<byte>, sep: seq<byte>, p: nat, i: nat, q: int)
    requires sep != [] && p <= |s| && p <= i && IsFirst(s, sep, i, q)
    ensures q == BSTR_ERR || p <= q <= q + |sep| <= |s|
    ensures ScanSplit(s, sep, p, i) ==
            if q < 0 then [Piece(p, s[p..])]
            else [Piece(p, s[p..q])] + ScanSplit(s, sep, q + |sep|, q + |sep| + 1)
    decreases |s| - i
  {
    hide ScanSplit;
    ScanStep(s, sep, p, i);
    if i + |sep| <= |s| && i != q {
      ScanNext(s, sep, p, i + 1, q);
    }
  }

  lemma {:induction false} SinglesJoin(s: seq<byte>, i: nat)
    requires i <= |s|
    ensures Join(Entries(Singles(s, i)), []) == s[i..]
    decreases |s| - i
  {
    if i < |s| {
      SinglesJoin(s, i + 1);
      EntriesCons(Piece(i, s[i..i + 1]), Singles(s, i + 1));
      if i + 1 < |s| {
        JoinCons(s[i..i + 1], Entries(Singles(s, i + 1)), []);
      } else {
        assert Singles(s, i + 1) == [];
      }
      assert s[i..] == s[i..i + 1] + [] + s[i + 1..];
    }
  }

  /** bjoin after bsplitstr restores any string, whatever the separator. */
  lemma JoinAfterSplitStr(s: seq<byte>, sep: seq<byte>)
    ensures Join(Entries(StrSplit(s, sep, 0)), sep) == s
  {
    assert s[0..] == s;
    if |sep| == 0 {
      SinglesJoin(s, 0);
      assert sep == [];
    } else if |sep| == 1 {
      assert sep == [sep[0]];
      JoinAfterSplit(s, sep[0]);
    } else {
      ScanJoins(s, sep, 0, 0);
    }
  }

  /** No two of the cuts from piece number from on stand back to back. */
  predicate NoGap(cut: seq<seq<byte>>, from: nat) {
    forall k :: from <= k < |cut| - 1 ==> cut[k] != []
  }

  /** The split delivered exactly the pieces of the cut. */
  predicate Agree(split: seq<Piece>, cut: seq<seq<byte>>) {
    Entries(split) == cut
  }

  /** While nothing has been missed, the scan finds what the first search would find. */
  lemma {:induction false} ScanFindsFirst(s: seq<byte>, sep: seq<byte>, p: nat, i: nat, q: int)
    requires sep != [] && p <= |s| && p <= i && IsFirst(s, sep, p, q) && (q == BSTR_ERR || i <= q)
    ensures q == BSTR_ERR || p <= q <= q + |sep| <= |s|
    ensures ScanSplit(s, sep, p, i) ==
            if q < 0 then [Piece(p, s[p..])] else [Piece(p, s[p..q])] + ScanSplit(s, sep, q + |sep|, q + |sep| + 1)
    decreases |s| - i
  {
    hide ScanSplit;
    ScanStep(s, sep, p, i);
    if i + |sep| <= |s| && i != q {
      ScanFindsFirst(s, sep, p, i + 1, q);
    }
  }

  /** From just behind a separator, the split is the leftmost one exactly when no separator
      follows another at once. */
  lemma {:induction false} ScanBehindSeparator(s: seq<byte>, sep: seq<byte>, p: nat)
    requires sep != [] && p <= |s|
    ensures Agree(ScanSplit(s, sep, p, p + 1), Cut(s[p..], sep)) <==> NoGap(Cut(s[p..], sep), 0)
    decreases |s| - p
  {
    hide ScanSplit, Cut, OccursAt, IsFirst, FindFrom, Agree, NoGap, Entries;
    var q := FindFrom(s, sep, p);
    FirstInSuffix(s, sep, p, q);
    CutAt(s[p..], sep, if q < 0 then BSTR_ERR else q - p);
    if q == p {
      DoubledDisagrees(s, sep, p);
    } else {
      ScanFindsFirst(s, sep, p, p + 1, q);
      if q >= 0 {
        var e := q + |sep|;
        ScanBehindSeparator(s, sep, e);
        SuffixOfSuffix(s, p, q);
        SuffixOfSuffix(s, p, e);
        HeadDecides(Piece(p, s[p..q]), ScanSplit(s, sep, e, e + 1), Cut(s[e..], sep));
      } else {
        LonePieceAgrees(Piece(p, s[p..]));
      }
    }
  }

  /** A separator at p itself is passed over: its empty entry is missing from the split. */
  lemma DoubledDisagrees(s: seq<byte>, sep: seq<byte>, p: nat)
    requires sep != [] && p <= |s| && FindFrom(s[p..], sep, 0) == 0
    ensures !Agree(ScanSplit(s, sep, p, p + 1), Cut(s[p..], sep)) && !NoGap(Cut(s[p..], sep), 0)
  {
    CutAt(s[p..], sep, 0);
    assert Cut(s[p..], sep)[0] == [] && |Cut(s[p..], sep)| > 1;
    LongFirstEntry(s, sep, p, p + 1);
  }

  lemma LonePieceAgrees(head: Piece)
    ensures Agree([head], [head.entry]) && NoGap([head.entry], 0) && NoGap([head.entry], 1)
  {
  }

  lemma HeadDecides(head: Piece, a: seq<Piece>, b: seq<seq<byte>>)
    requires |b| > 0
    ensures Agree([head] + a, [head.entry] + b) <==> Agree(a, b)
    ensures NoGap([head.entry] + b, 1) <==> NoGap(b, 0)
    ensures NoGap([head.entry] + b, 0) <==> head.entry != [] && NoGap(b, 0)
  {
    hide Entries;
    EntriesCons(head, a);
    ConsDecides(head.entry, Entries(a), b);
  }

  lemma ConsDecides(head: seq<byte>, a: seq<seq<byte>>, b: seq<seq<byte>>)
    requires |b| > 0
    ensures [head] + a == [head] + b <==> a == b
    ensures NoGap([head] + b, 1) <==> NoGap(b, 0)
    ensures NoGap([head] + b, 0) <==> head != [] && NoGap(b, 0)
  {
    assert ([head] + a)[1..] == a && ([head] + b)[1..] == b;
    assert forall k :: 0 <= k < |b| ==> ([head] + b)[k + 1] == b[k];
    assert ([head] + b)[0] == head;
  }

  /** An entry scanned past its start is not empty while a separator would still fit there. */
  lemma {:induction false} LongFirstEntry(s: seq<byte>, sep: seq<byte>, p: nat, i: nat)
    requires sep != [] && p < i && p + |sep| <= |s|
    ensures Entries(ScanSplit(s, sep, p, i))[0] != []
    decreases |s| - i
  {
    ScanStep(s, sep, p, i);
    if i + |sep| <= |s| && !OccursAt(s, sep, i) {
      LongFirstEntry(s, sep, p, i + 1);
    }
  }

  /** bsplitstr takes the leftmost non-overlapping separators exactly when the string does not
      hold two of them back to back. Separators of one character are always found. */
  lemma SplitStrExactly(s: seq<byte>, sep: seq<byte>)
    requires sep != []
    ensures Entries(StrSplit(s, sep, 0)) == Cut(s, sep) <==> |sep| == 1 || NoGap(Cut(s, sep), 1)
  {
    assert s[0..] == s;
    if |sep| == 1 {
      assert sep == [sep[0]];
      CharSplitIsCut(s, sep[0], 0);
    } else {
      ScanFromStart(s, sep);
    }
  }

  lemma ScanFromStart(s: seq<byte>, sep: seq<byte>)
    requires sep != []
    ensures Agree(ScanSplit(s, sep, 0, 0), Cut(s, sep)) <==> NoGap(Cut(s, sep), 1)
  {
    hide ScanSplit, Cut, OccursAt, IsFirst, FindFrom, Agree, NoGap, Entries;
    assert s[0..] == s;
    var q := FindFrom(s, sep, 0);
    ScanFindsFirst(s, sep, 0, 0, q);
    CutAt(s, sep, q);
    if q >= 0 {
      var e := q + |sep|;
      ScanBehindSeparator(s, sep, e);
      HeadDecides(Piece(0, s[..q]), ScanSplit(s, sep, e, e + 1), Cut(s[e..], sep));
    } else {
      LonePieceAgrees(Piece(0, s));
    }
  }

  /** "abab" split at "ab" leaves an entry that is itself the separator. */
  lemma DoubledSeparatorSurvives()
    ensures Entries(StrSplit([97, 98, 97, 98], [97, 98], 0)) == [[], [97, 98]]
  {
  }
}
