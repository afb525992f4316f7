/** The find-and-replace engine. Equal-length, shrinking and expanding replacements work in the
    buffer in three different ways; all three compute the same function of the string. */
module Replace {
  import opened Bytes
  import opened BStrings
  import opened Search
  import opened Pieces

  /** s with every leftmost non-overlapping occurrence of find from pos on replaced by repl. */
  function Replaced(s: seq<byte>, find: seq<byte>, repl: seq<byte>, pos: nat): (r: seq<byte>)
    requires find != [] && pos <= |s|
  {
    s[..pos] + Join(Cut(s[pos..], find), repl)
  }

  /** Replacing a string by itself changes nothing. */
  lemma ReplacedBySelf(s: seq<byte>, find: seq<byte>, pos: nat)
    requires find != [] && pos <= |s|
    ensures Replaced(s, find, find, pos) == s
  {
    CutIsCut(s[pos..], find);
  }

  /** The length changes by the difference of the two, once for each occurrence. */
  lemma {:induction false} JoinLength(pieces: seq<seq<byte>>, a: seq<byte>, b: seq<byte>)
    requires |pieces| > 0
    ensures |Join(pieces, b)| == |Join(pieces, a)| + (|pieces| - 1) * (|b| - |a|)
    decreases |pieces|
  {
    if |pieces| > 1 {
      JoinLength(pieces[1..], a, b);
      var n, d := |pieces| - 2, |b| - |a|;
      assert (n + 1) * d == n * d + d;
    }
  }

  lemma ReplacedLength(s: seq<byte>, find: seq<byte>, repl: seq<byte>, pos: nat)
    requires find != [] && pos <= |s|
    ensures |Replaced(s, find, repl, pos)| == |s| + (|Cut(s[pos..], find)| - 1) * (|repl| - |find|)
  {
    CutIsCut(s[pos..], find);
    JoinLength(Cut(s[pos..], find), find, repl);
  }

  /** What is still to be produced for the part of s from p on. */
  function Rest(s: seq<byte>, find: seq<byte>, repl: seq<byte>, p: nat): (r: seq<byte>)
    requires find != [] && p <= |s|
  {
    Join(Cut(s[p..], find), repl)
  }

  lemma RestAfterHit(s: seq<byte>, find: seq<byte>, repl: seq<byte>, p: nat, q: nat)
    requires find != [] && p <= |s| && IsFirst(s, find, p, q)
    ensures Rest(s, find, repl, p) == s[p..q] + repl + Rest(s, find, repl, q + |find|)
  {
    FirstInSuffix(s, find, p, q);
    var t := s[p..];
    assert t[..q - p] == s[p..q];
    assert t[q - p + |find|..] == s[q + |find|..];
    JoinCons(s[p..q], Cut(s[q + |find|..], find), repl);
  }

  lemma RestAfterMiss(s: seq<byte>, find: seq<byte>, repl: seq<byte>, p: nat)
    requires find != [] && p <= |s| && IsFirst(s, find, p, BSTR_ERR)
    ensures Rest(s, find, repl, p) == s[p..]
  {
    FirstInSuffix(s, find, p, BSTR_ERR);
  }

  /** A search from p on sees only the part of the buffer from p on. */
  lemma SameSuffixSameHit(c: seq<byte>, s: seq<byte>, find: seq<byte>, p: nat, q: int)
    requires |c| == |s| && p <= |s| && c[p..] == s[p..] && IsFirst(c, find, p, q)
    ensures IsFirst(s, find, p, q)
  {
    forall k: nat | p <= k
      ensures OccursAt(c, find, k) <==> OccursAt(s, find, k)
    {
      if k + |find| <= |s| {
        SliceOfSlice(c, p, |c|, k - p, k - p + |find|);
        SliceOfSlice(s, p, |s|, k - p, k - p + |find|);
      }
    }
  }

  /** Replacement under way in a buffer c: its first out octets are final, its octets from p on
      are still those of s, and the two together give the answer. */
  ghost predicate Underway(c: seq<byte>, s: seq<byte>, find: seq<byte>, repl: seq<byte>, start: nat, out: nat, p: nat) {
    && find != [] && start <= |s| && out <= p <= |s| == |c|
    && c[p..] == s[p..]
    && c[..out] + Rest(s, find, repl, p) == Replaced(s, find, repl, start)
  }

  lemma UnderwayBegins(s: seq<byte>, find: seq<byte>, repl: seq<byte>, start: nat)
    requires find != [] && start <= |s|
    ensures Underway(s, s, find, repl, start, start, start)
  {
  }

  lemma UntouchedSuffix(c: seq<byte>, s: seq<byte>, p: nat, q: nat)
    requires p <= q <= |s| == |c| && c[p..] == s[p..]
    ensures c[p..q] == s[p..q] && c[q..] == s[q..]
  {
  }

  lemma Regroup(a: seq<byte>, b: seq<byte>, c: seq<byte>, d: seq<byte>)
    ensures a + (b + c + d) == (a + b + c) + d
  {
  }

  /** Moving the stretch before the hit at q down to the output and putting repl after it. */
  lemma UnderwayHit(c: seq<byte>, s: seq<byte>, find: seq<byte>, repl: seq<byte>, start: nat, out: nat, p: nat,
                    q: nat, c': seq<byte>)
    requires Underway(c, s, find, repl, start, out, p) && IsFirst(c, find, p, q)
    requires |repl| <= |find| && |c'| == |c|
    requires c'[..out + (q - p) + |repl|] == c[..out] + c[p..q] + repl
    requires c'[q + |find|..] == c[q + |find|..]
    ensures Underway(c', s, find, repl, start, out + (q - p) + |repl|, q + |find|)
  {
    hide IsFirst, Replaced, Rest;
    SameSuffixSameHit(c, s, find, p, q);
    RestAfterHit(s, find, repl, p, q);
    HitBounds(c, find, p, q);
    UntouchedSuffix(c, s, p, q);
    UntouchedSuffix(c, s, p, q + |find|);
    Regroup(c[..out], s[p..q], repl, Rest(s, find, repl, q + |find|));
  }

  lemma UnderwayMiss(c: seq<byte>, s: seq<byte>, find: seq<byte>, repl: seq<byte>, start: nat, out: nat, p: nat)
    requires Underway(c, s, find, repl, start, out, p) && IsFirst(c, find, p, BSTR_ERR)
    ensures c[..out] + c[p..] == Replaced(s, find, repl, start)
  {
    SameSuffixSameHit(c, s, find, p, BSTR_ERR);
    RestAfterMiss(s, find, repl, p);
  }

  /** The equal-length branch: each hit is overwritten where it stands, and the search goes on in
      the buffer being rewritten. */
  method ReplaceSameLength(b: BString, find: seq<byte>, repl: seq<byte>, start: nat)
    requires b.Valid() && find != [] && |repl| == |find| && start <= b.slen
    modifies b, b.data
    ensures b.Valid()
    ensures b.Contents() == Replaced(old(b.Contents()), find, repl, start)
  {
    hide Underway, Replaced, IsFirst;
    ghost var s := b.Contents();
    UnderwayBegins(s, find, repl, start);
    var p := start;
    var pos := Instr(b, p, find);
    while pos >= 0
      invariant p <= b.slen == |s| && b.data == old(b.data) && b.Valid()
      invariant Underway(b.Contents(), s, find, repl, start, p, p)
      invariant IsFirst(b.Contents(), find, p, pos) && pos >= -1
      decreases |s| - p
    {
      ghost var c := b.Contents();
      HitBounds(c, find, p, pos);
      b.Overwrite(pos, repl);
      UnderwayHit(c, s, find, repl, start, p, p, pos, b.Contents());
      p := pos + |find|;
      pos := Instr(b, p, find);
      HitBounds(b.Contents(), find, p, pos);
    }
    UnderwayMiss(b.Contents(), s, find, repl, start, p, p);
  }

  /** The stretch of the buffer from p to i moves down by acc, if there is anything to move. */
  method MoveDown(b: BString, p: nat, acc: nat, i: nat)
    requires b.Valid() && acc <= p <= i <= b.slen
    modifies b.data
    ensures b.Contents()[..i - acc] == old(b.Contents()[..p - acc]) + old(b.Contents()[p..i])
    ensures b.Contents()[i..] == old(b.Contents()[i..])
  {
    hide Patched;
    ghost var c := b.Contents();
    if acc > 0 && i > p {
      b.Shift(p - acc, p, i - p);
    }
    ShiftedDown(c, b.Contents(), p, acc, i);
  }

  lemma ShiftedDown(c: seq<byte>, c1: seq<byte>, p: nat, acc: nat, i: nat)
    requires acc <= p <= i <= |c|
    requires c1 == if acc > 0 && i > p then Patched(c, p - acc, c[p..i]) else c
    ensures |c1| == |c| && c1[..i - acc] == c[..p - acc] + c[p..i] && c1[i..] == c[i..]
  {
  }

  /** One turn of the shrinking loop: the stretch before the hit at i, then repl. */
  method CompactHit(b: BString, find: seq<byte>, repl: seq<byte>, p: nat, acc: nat, i: nat)
    requires b.Valid() && acc <= p <= i <= i + |find| <= b.slen && |repl| < |find|
    modifies b.data
    ensures b.Contents()[..p - acc + (i - p) + |repl|] == old(b.Contents()[..p - acc]) + old(b.Contents()[p..i]) + repl
    ensures b.Contents()[i + |find|..] == old(b.Contents()[i + |find|..])
  {
    ghost var c := b.Contents();
    MoveDown(b, p, acc, i);
    ghost var c1 := b.Contents();
    if |repl| > 0 {
      b.Overwrite(i - acc, repl);
    }
    StoredAt(c, c1, b.Contents(), find, repl, p, acc, i);
  }

  lemma StoredAt(c: seq<byte>, c1: seq<byte>, c2: seq<byte>, find: seq<byte>, repl: seq<byte>, p: nat, acc: nat, i: nat)
    requires acc <= p <= i <= i + |find| <= |c| == |c1| && |repl| < |find|
    requires c1[..i - acc] == c[..p - acc] + c[p..i] && c1[i..] == c[i..]
    requires c2 == if |repl| > 0 then Patched(c1, i - acc, repl) else c1
    ensures |c2| == |c|
    ensures c2[..p - acc + (i - p) + |repl|] == c[..p - acc] + c[p..i] + repl
    ensures c2[i + |find|..] == c[i + |find|..]
  {
  }

  /** The shrinking branch: the stretch before each hit moves down over what the earlier hits
      gave up, while the search goes on in the same buffer. */
  method ReplaceShrinking(b: BString, find: seq<byte>, repl: seq<byte>, start: nat)
    requires b.Valid() && |repl| < |find| && start <= b.slen
    modifies b, b.data
    ensures b.Valid()
    ensures b.Contents() == Replaced(old(b.Contents()), find, repl, start)
  {
    hide Underway, Replaced, IsFirst;
    ghost var s := b.Contents();
    UnderwayBegins(s, find, repl, start);
    var delta := |find| - |repl|;
    var p, acc := start, 0;
    var i := Instr(b, p, find);
    HitBounds(s, find, p, i);
    while i >= 0
      invariant 0 <= acc <= p <= b.slen == |s| && b.data == old(b.data) && b.Valid()
      invariant Underway(b.Contents(), s, find, repl, start, p - acc, p)
      invariant IsFirst(b.Contents(), find, p, i)
      invariant i == BSTR_ERR || p <= i <= i + |find| <= b.slen
      decreases |s| - p
    {
      ghost var c := b.Contents();
      CompactHit(b, find, repl, p, acc, i);
      UnderwayHit(c, s, find, repl, start, p - acc, p, i, b.Contents());
      acc := acc + delta;
      p := i + |find|;
      i := Instr(b, p, find);
      HitBounds(b.Contents(), find, p, i);
    }
    ghost var c := b.Contents();
    UnderwayMiss(c, s, find, repl, start, p - acc, p);
    if acc > 0 {
      MoveDown(b, p, acc, b.slen);
      assert c[p..b.slen] == c[p..];
      b.Truncate(b.slen - acc);
    }
  }

  lemma HitBounds(c: seq<byte>, find: seq<byte>, p: nat, q: int)
    requires IsFirst(c, find, p, q)
    ensures q == BSTR_ERR || p <= q <= q + |find| <= |c|
  {
  }

  /** The positions of the leftmost non-overlapping occurrences from p on. */
  function Hits(s: seq<byte>, find: seq<byte>, p: nat): (h: seq<nat>)
    requires find != [] && p <= |s|
    decreases |s| - p
  {
    var q := FindFrom(s, find, p);
    if q < 0 then [] else [q as nat] + Hits(s, find, q + |find|)
  }

  /** The marks d lie at least f apart, up to the last of them, n. */
  predicate Spaced(d: seq<nat>, f: nat, n: nat)
    decreases |d|
  {
    if |d| <= 1 then d == [n] else d[0] + f <= d[1] <= n && Spaced(d[1..], f, n)
  }

  lemma {:induction false} SpacedAt(d: seq<nat>, f: nat, n: nat, k: nat)
    requires Spaced(d, f, n) && k + 1 < |d|
    ensures d[k] + f <= d[k + 1] <= n
    decreases |d|
  {
    if k > 0 {
      SpacedAt(d[1..], f, n, k - 1);
    }
  }

  /** The answer from the first mark on: at each mark but the last, repl and then the octets that
      follow the occurrence, up to the next mark. */
  function Spread(s: seq<byte>, f: nat, repl: seq<byte>, d: seq<nat>): (r: seq<byte>)
    decreases |d|
  {
    if |d| > 1 && d[0] + f <= d[1] <= |s| then repl + s[d[0] + f..d[1]] + Spread(s, f, repl, d[1..]) else []
  }

  lemma HitsStep(s: seq<byte>, find: seq<byte>, p: nat, q: int)
    requires find != [] && p <= |s| && IsFirst(s, find, p, q)
    ensures q == BSTR_ERR || p <= q <= q + |find| <= |s|
    ensures Hits(s, find, p) == if q < 0 then [] else [q as nat] + Hits(s, find, q + |find|)
  {
  }

  /** All hits from p on, and the end of the string. */
  function Marks(s: seq<byte>, find: seq<byte>, p: nat): (d: seq<nat>)
    requires find != [] && p <= |s|
    ensures |d| > 0
  {
    Hits(s, find, p) + [|s|]
  }

  lemma MarksAre(s: seq<byte>, find: seq<byte>, p: nat)
    requires find != [] && p <= |s|
    ensures Marks(s, find, p) == Hits(s, find, p) + [|s|]
  {
  }

  lemma MarksStep(s: seq<byte>, find: seq<byte>, p: nat, q: int)
    requires find != [] && p <= |s| && IsFirst(s, find, p, q)
    ensures q == BSTR_ERR || p <= q <= q + |find| <= |s|
    ensures Marks(s, find, p) == if q < 0 then [|s|] else [q as nat] + Marks(s, find, q + |find|)
  {
  }

  lemma {:induction false} MarksSpaced(s: seq<byte>, find: seq<byte>, p: nat)
    requires find != [] && p <= |s|
    ensures p <= Marks(s, find, p)[0] <= |s| && Spaced(Marks(s, find, p), |find|, |s|)
    decreases |s| - p
  {
    var q := FindFrom(s, find, p);
    MarksStep(s, find, p, q);
    if q >= 0 {
      MarksSpaced(s, find, q + |find|);
      assert Marks(s, find, p)[1..] == Marks(s, find, q + |find|);
    }
  }

  lemma {:induction false} SpreadIsRest(s: seq<byte>, find: seq<byte>, repl: seq<byte>, p: nat)
    requires find != [] && p <= |s| && p <= Marks(s, find, p)[0] <= |s|
    ensures s[p..Marks(s, find, p)[0]] + Spread(s, |find|, repl, Marks(s, find, p)) == Rest(s, find, repl, p)
    decreases |s| - p
  {
    hide Hits, Marks, Rest, IsFirst;
    var q := FindFrom(s, find, p);
    MarksStep(s, find, p, q);
    if q < 0 {
      RestAfterMiss(s, find, repl, p);
      assert s[p..|s|] == s[p..];
    } else {
      var p' := q + |find|;
      var rest := Marks(s, find, p');
      MarksSpaced(s, find, p');
      SpreadIsRest(s, find, repl, p');
      RestAfterHit(s, find, repl, p, q);
      SpreadCons(s, |find|, repl, q, rest);
      RegroupPairs(s[p..q], repl, s[p'..rest[0]], Spread(s, |find|, repl, rest));
    }
  }

  lemma RegroupPairs(a: seq<byte>, b: seq<byte>, c: seq<byte>, d: seq<byte>)
    ensures a + (b + c + d) == a + b + (c + d)
  {
  }

  lemma SpreadCons(s: seq<byte>, f: nat, repl: seq<byte>, q: nat, rest: seq<nat>)
    requires |rest| > 0 && q + f <= rest[0] <= |s|
    ensures Spread(s, f, repl, [q] + rest) == repl + s[q + f..rest[0]] + Spread(s, f, repl, rest)
  {
  }

  /** One turn of the expanding loop: the stretch after the occurrence at lo moves up by acc, and
      repl goes in before it. */
  method SpreadHit(b: BString, find: seq<byte>, repl: seq<byte>, lo: nat, hi: nat, acc: nat)
    requires b.Valid() && |find| < |repl| && |repl| - |find| <= acc
    requires lo + |find| <= hi <= hi + acc <= b.slen
    modifies b.data
    ensures b.Contents()[..lo] == old(b.Contents()[..lo])
    ensures b.Contents()[lo + acc - (|repl| - |find|)..] ==
            repl + old(b.Contents()[lo + |find|..hi]) + old(b.Contents()[hi + acc..])
  {
    hide Patched;
    ghost var c := b.Contents();
    var s := lo + |find|;
    var l := hi - s;
    if l > 0 {
      b.Shift(s + acc, s, l);
    }
    ghost var c1 := b.Contents();
    if |repl| > 0 {
      b.Overwrite(s + acc - |repl|, repl);
    }
    SpreadDone(c, c1, b.Contents(), repl, lo, s, hi, acc);
  }

  lemma SpreadDone(c: seq<byte>, c1: seq<byte>, c2: seq<byte>, repl: seq<byte>, lo: nat, s: nat, hi: nat, acc: nat)
    requires lo <= s <= hi <= hi + acc <= |c| && lo + |repl| <= s + acc
    requires c1 == if hi > s then Patched(c, s + acc, c[s..hi]) else c
    requires c2 == Patched(c1, s + acc - |repl|, repl)
    ensures |c2| == |c| && c2[..lo] == c[..lo]
    ensures c2[s + acc - |repl|..] == repl + c[s..hi] + c[hi + acc..]
  {
  }

  /** The expanding branch: first all hits are found, then the buffer grows once, and then the
      stretches between the hits move apart. */
  method ReplaceExpanding(b: BString, find: seq<byte>, repl: seq<byte>, start: nat)
    requires b.Valid() && 0 < |find| < |repl| && start <= b.slen
    modifies b, b.data
    ensures b.Valid()
    ensures b.Contents() == Replaced(old(b.Contents()), find, repl, start)
  {
    hide Hits, Marks, IsFirst, Rest, Cut, Join, Spread, SpreadFrom, Spaced, Replaced;
    ghost var s := b.Contents();
    var d: seq<nat>, acc: nat := FindHits(b, find, |repl| - |find|, start);
    d := d + [b.slen];
    MarksSpaced(s, find, start);
    SpreadIsRest(s, find, repl, start);
    MarksAre(s, find, start);
    b.Extend(acc);
    SpreadBegins(b.Contents(), s, find, repl, d, acc);
    MoveSegments(b, find, repl, d, acc, s);
    SpreadEnds(b.Contents(), s, find, repl, d, start);
  }

  /** The last loop of the expanding branch, from the right end to the left. */
  method MoveSegments(b: BString, find: seq<byte>, repl: seq<byte>, d: seq<nat>, acc0: nat, ghost s: seq<byte>)
    requires b.Valid() && |find| < |repl| && |d| > 0 && Spaced(d, |find|, |s|)
    requires acc0 == (|d| - 1) * (|repl| - |find|) && SpreadFrom(b.Contents(), s, find, repl, d, |d| - 1, acc0)
    modifies b.data
    ensures SpreadFrom(b.Contents(), s, find, repl, d, 0, 0)
  {
    hide Spread, SpreadFrom, Spaced;
    var g, acc, i := |repl| - |find|, acc0, |d| - 2;
    SpreadFits(b.Contents(), s, find, repl, d, |d| - 1, acc);
    while i >= 0
      invariant -1 <= i < |d| - 1 && acc == (i + 1) * g
      invariant SpreadFrom(b.Contents(), s, find, repl, d, i + 1, acc)
      invariant d[i + 1] + acc <= b.slen
    {
      ghost var c := b.Contents();
      Distribute(i, g);
      SpacedAt(d, |find|, |s|, i);
      SpreadHit(b, find, repl, d[i], d[i + 1], acc);
      SpreadTurn(c, s, find, repl, d, i, acc, b.Contents());
      SpreadFits(b.Contents(), s, find, repl, d, i, acc - g);
      acc := acc - g;
      i := i - 1;
    }
  }

  lemma SpreadFits(c: seq<byte>, s: seq<byte>, find: seq<byte>, repl: seq<byte>, d: seq<nat>, k: nat, acc: nat)
    requires SpreadFrom(c, s, find, repl, d, k, acc)
    ensures k < |d| && d[k] + acc <= |c|
  {
  }

  lemma Distribute(i: nat, g: nat)
    ensures (i + 1) * g == i * g + g && i * g >= 0
  {
  }

  lemma SpreadBegins(c: seq<byte>, s: seq<byte>, find: seq<byte>, repl: seq<byte>, d: seq<nat>, acc: nat)
    requires |d| > 0 && d[|d| - 1] == |s| && |c| == |s| + acc && c[..|s|] == s
    ensures SpreadFrom(c, s, find, repl, d, |d| - 1, acc)
  {
  }

  lemma PrefixSplit(c: seq<byte>, s: seq<byte>, start: nat, lo: nat, t: seq<byte>, rest: seq<byte>)
    requires start <= lo <= |s| && lo <= |c| && c[..lo] == s[..lo] && c[lo..] == t && s[start..lo] + t == rest
    ensures c == s[..start] + rest
  {
  }

  lemma SpreadEnds(c: seq<byte>, s: seq<byte>, find: seq<byte>, repl: seq<byte>, d: seq<nat>, start: nat)
    requires find != [] && |d| > 0 && start <= d[0] <= |s| && SpreadFrom(c, s, find, repl, d, 0, 0)
    requires s[start..d[0]] + Spread(s, |find|, repl, d) == Rest(s, find, repl, start)
    ensures c == Replaced(s, find, repl, start)
  {
    assert d[0..] == d;
    PrefixSplit(c, s, start, d[0], Spread(s, |find|, repl, d), Rest(s, find, repl, start));
  }

  /** Everything from mark k on stands in its final place, acc further right; everything before
      the mark is still as it was. */
  ghost predicate SpreadFrom(c: seq<byte>, s: seq<byte>, find: seq<byte>, repl: seq<byte>, d: seq<nat>, k: nat,
                             acc: nat) {
    && k < |d| && d[k] <= |s| && d[k] + acc <= |c|
    && c[..d[k]] == s[..d[k]]
    && c[d[k] + acc..] == Spread(s, |find|, repl, d[k..])
  }

  lemma SpreadTurn(c: seq<byte>, s: seq<byte>, find: seq<byte>, repl: seq<byte>, d: seq<nat>, i: nat, acc: nat,
                   c': seq<byte>)
    requires SpreadFrom(c, s, find, repl, d, i + 1, acc) && d[i] + |find| <= d[i + 1]
    requires |find| < |repl| && |repl| - |find| <= acc && |c'| == |c|
    requires c'[..d[i]] == c[..d[i]]
    requires c'[d[i] + acc - (|repl| - |find|)..] == repl + c[d[i] + |find|..d[i + 1]] + c[d[i + 1] + acc..]
    ensures SpreadFrom(c', s, find, repl, d, i, acc - (|repl| - |find|))
    ensures d[i] + acc - (|repl| - |find|) <= |c'|
  {
  }

  /** The first loop of the expanding branch: all hits, and the room they need. */
  method FindHits(b: BString, find: seq<byte>, g: nat, start: nat) returns (d: seq<nat>, acc: nat)
    requires b.Valid() && find != [] && start <= b.slen
    ensures d == Hits(b.Contents(), find, start) && acc == |d| * g
  {
    hide Hits, IsFirst;
    ghost var s := b.Contents();
    d, acc := [], 0;
    var p := start;
    var pos := Instr(b, p, find);
    HitsStep(s, find, p, pos);
    while pos >= 0
      invariant p <= |s| && IsFirst(s, find, p, pos)
      invariant pos == BSTR_ERR || p <= pos <= pos + |find| <= |s|
      invariant d + Hits(s, find, p) == Hits(s, find, start) && acc == |d| * g
      decreases |s| - p
    {
      HitsStep(s, find, p, pos);
      assert d + ([pos as nat] + Hits(s, find, pos + |find|)) == d + [pos as nat] + Hits(s, find, pos + |find|);
      assert (|d| + 1) * g == |d| * g + g;
      d := d + [pos];
      acc := acc + g;
      p := pos + |find|;
      pos := Instr(b, p, find);
      HitBounds(s, find, p, pos);
    }
    HitsStep(s, find, p, pos);
  }

  /** findreplaceengine with binstr: a bad position or an empty find string is refused; otherwise
      every leftmost non-overlapping occurrence of find from pos on is replaced by repl. */
  method FindReplace(b: BString, find: seq<byte>, repl: seq<byte>, pos: int) returns (r: int)
    requires b.Valid()
    modifies b, b.data
    ensures b.Valid()
    ensures r == if pos < 0 || find == [] then BSTR_ERR else BSTR_OK
    ensures b.Contents() == if pos < 0 || find == [] || pos > old(b.slen) then old(b.Contents())
                            else Replaced(old(b.Contents()), find, repl, pos)
  {
    if pos < 0 || |find| <= 0 { return BSTR_ERR; }
    if pos > b.slen - |find| {
      if pos <= b.slen { NoRoomNoHit(b.Contents(), find, repl, pos); }
      return BSTR_OK;
    }
    var delta := |find| - |repl|;
    if delta == 0 {
      ReplaceSameLength(b, find, repl, pos);
    } else if delta > 0 {
      ReplaceShrinking(b, find, repl, pos);
    } else {
      ReplaceExpanding(b, find, repl, pos);
    }
    r := BSTR_OK;
  }

  lemma NoRoomNoHit(s: seq<byte>, find: seq<byte>, repl: seq<byte>, pos: nat)
    requires find != [] && pos <= |s| < pos + |find|
    ensures Replaced(s, find, repl, pos) == s
  {
  }
}
