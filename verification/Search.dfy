/** The substring searcher. It matches the pattern greedily as a subsequence, two characters a
    turn, looks at contiguity only once every pattern character has been met, and then restarts
    |pattern| places back. */
module Search {
  import opened Bytes
  import opened BStrings

  /** q is the least position from pos on at which pat occurs in s; BSTR_ERR if there is none. */
  ghost predicate IsFirst(s: seq<byte>, pat: seq<byte>, pos: int, q: int) {
    && (q == BSTR_ERR || (0 <= pos <= q && OccursAt(s, pat, q)))
    && forall k: nat :: 0 <= pos <= k && (q == BSTR_ERR || k < q) ==> !OccursAt(s, pat, k)
  }

  lemma IsFirstUnique(s: seq<byte>, pat: seq<byte>, pos: int, q: int, r: int)
    requires IsFirst(s, pat, pos, q) && IsFirst(s, pat, pos, r)
    ensures q == r
  {
  }

  /** p is a subsequence of s. */
  predicate Embeds(p: seq<byte>, s: seq<byte>) {
    if p == [] then true
    else if s == [] then false
    else Embeds(if p[|p| - 1] == s[|s| - 1] then p[..|p| - 1] else p, s[..|s| - 1])
  }

  lemma {:induction false} EmbedsPrefix(p: seq<byte>, s: seq<byte>)
    requires p != [] && Embeds(p, s)
    ensures Embeds(p[..|p| - 1], s)
    decreases |s|
  {
    var p', s' := p[..|p| - 1], s[..|s| - 1];
    if p[|p| - 1] == s[|s| - 1] {
      if p' != [] && p'[|p'| - 1] == s[|s| - 1] {
        EmbedsPrefix(p', s');
      }
    } else {
      EmbedsPrefix(p, s');
      if p' != [] && p'[|p'| - 1] == s[|s| - 1] {
        EmbedsPrefix(p', s');
      }
    }
  }

  /** An occurrence inside a stretch of s embeds there. */
  lemma {:induction false} OccurrenceEmbeds(s: seq<byte>, p: seq<byte>, q: nat)
    requires OccursAt(s, p, q)
    ensures Embeds(p, s)
    decreases |s|
  {
    if p != [] {
      var s', p' := s[..|s| - 1], p[..|p| - 1];
      if q + |p| == |s| {
        assert s[q..q + |p|][|p| - 1] == s[|s| - 1];
        assert s'[q..q + |p'|] == p';
        OccurrenceEmbeds(s', p', q);
      } else {
        assert s'[q..q + |p|] == p;
        OccurrenceEmbeds(s', p, q);
        if p[|p| - 1] == s[|s| - 1] {
          EmbedsPrefix(p, s');
        }
      }
    }
  }

  /** Nothing that starts at base or later, and ends by end, is lost while no embedding of the
      whole pattern into s[base..end] exists. */
  lemma NoOccurrenceWithin(s: seq<byte>, p: seq<byte>, base: nat, end: nat, q: nat)
    requires base <= end <= |s| && !Embeds(p, s[base..end])
    requires base <= q && q + |p| <= end
    ensures !OccursAt(s, p, q)
  {
    if OccursAt(s, p, q) {
      SliceOfSlice(s, base, end, q - base, q - base + |p|);
      OccurrenceEmbeds(s[base..end], p, q - base);
    }
  }

  /** Reading one more octet that is not the next pattern character embeds no more of it. */
  lemma SkipOne(s: seq<byte>, p: seq<byte>, base: nat, i: nat)
    requires base <= i < |s| && p != [] && !Embeds(p, s[base..i]) && p[|p| - 1] != s[i]
    ensures !Embeds(p, s[base..i + 1])
  {
    assert s[base..i + 1][..i - base] == s[base..i];
  }

  /** Reading the next pattern character embeds no more than that. */
  lemma TakeOne(s: seq<byte>, p: seq<byte>, base: nat, i: nat, j: nat)
    requires base <= i < |s| && j + 1 < |p| && !Embeds(p[..j + 1], s[base..i])
    ensures !Embeds(p[..j + 2], s[base..i + 1])
  {
    assert s[base..i + 1][..i - base] == s[base..i];
    assert p[..j + 2][..j + 1] == p[..j + 1];
    if Embeds(p[..j + 2], s[base..i]) {
      EmbedsPrefix(p[..j + 2], s[base..i]);
    }
  }

  lemma {:induction false} NoEmptyEmbedding(p: seq<byte>, s: seq<byte>)
    requires |s| < |p|
    ensures !Embeds(p, s)
    decreases |s|
  {
    if s != [] {
      NoEmptyEmbedding(if p[|p| - 1] == s[|s| - 1] then p[..|p| - 1] else p, s[..|s| - 1]);
    }
  }

  lemma {:induction false} EmbedsAnyPrefix(p: seq<byte>, n: nat, s: seq<byte>)
    requires n <= |p| && Embeds(p, s)
    ensures Embeds(p[..n], s)
    decreases |p|
  {
    if n < |p| {
      EmbedsPrefix(p, s);
      EmbedsAnyPrefix(p[..|p| - 1], n, s);
      assert p[..|p| - 1][..n] == p[..n];
    } else {
      assert p[..n] == p;
    }
  }

  /** Before the first pattern character there is no occurrence. */
  lemma NothingBeforeFirst(s: seq<byte>, p: seq<byte>, base: nat, i: nat, q: nat)
    requires p != [] && base <= q < i <= |s| && !Embeds(p[..1], s[base..i])
    ensures !OccursAt(s, p, q)
  {
    if OccursAt(s, p, q) {
      OccurrenceStarts(s, p, q);
      NoOccurrenceWithin(s, p[..1], base, i, q);
    }
  }

  lemma OccurrenceStarts(s: seq<byte>, p: seq<byte>, q: nat)
    requires p != [] && OccursAt(s, p, q)
    ensures OccursAt(s, p[..1], q)
  {
  }

  /** A contiguous match grows by one. */
  lemma GrowRun(s: seq<byte>, p: seq<byte>, ii: nat, j: nat)
    requires j < |p| && ii + j < |s| && s[ii..ii + j] == p[..j] && s[ii + j] == p[j]
    ensures s[ii..ii + j + 1] == p[..j + 1]
  {
    assert s[ii..ii + j + 1] == s[ii..ii + j] + [s[ii + j]];
    assert p[..j + 1] == p[..j] + [p[j]];
  }

  /** With at most one octet unread, and that one of no use, no occurrence is left. */
  lemma NothingAtTheEnd(s: seq<byte>, p: seq<byte>, base: nat, i: nat, j: nat, q: nat)
    requires j < |p| && base <= i <= |s| <= i + 1 && !Embeds(p[..j + 1], s[base..i])
    requires i < |s| && j + 1 == |p| ==> p[j] != s[i]
    requires base <= q
    ensures !OccursAt(s, p, q)
  {
    assert s[base..|s|] == s[base..];
    if Embeds(p, s[base..]) {
      if i == |s| {
        EmbedsAnyPrefix(p, j + 1, s[base..]);
      } else if j + 1 == |p| {
        assert p[..j + 1] == p;
        SkipOne(s, p, base, i);
      } else {
        TakeOne(s, p, base, i, j);
        EmbedsAnyPrefix(p, j + 2, s[base..]);
      }
    }
    if q + |p| <= |s| {
      NoOccurrenceWithin(s, p, base, |s|, q);
    }
  }

  /** Once the whole pattern has embedded no earlier than at e, no occurrence starts before the
      place the searcher restarts from. */
  lemma RestartSkipsNothing(s: seq<byte>, p: seq<byte>, base: nat, e: nat, q: nat)
    requires p != [] && base <= e < |s| && !Embeds(p, s[base..e])
    requires base <= q < e + 1 - |p|
    ensures !OccursAt(s, p, q)
  {
    NoOccurrenceWithin(s, p, base, e, q);
  }

  /** binstr: the first occurrence of b2 in b1 from pos on, or BSTR_ERR. */
  method Instr(b1: BString, pos: int, b2: seq<byte>) returns (r: int)
    requires b1.Valid()
    ensures IsFirst(b1.Contents(), b2, pos, r)
  {
    if b1.slen == pos { return if |b2| == 0 then pos else BSTR_ERR; }
    if b1.slen < pos || pos < 0 { return BSTR_ERR; }
    if |b2| == 0 { return pos; }
    var lf := b1.slen - |b2| + 1;
    if lf <= pos { return BSTR_ERR; }
    var d1, i, ll, c0 := b1.data, pos, |b2|, b2[0];
    ghost var s := b1.Contents();

    if ll == 1 {
      while i < lf
        invariant pos <= i <= lf
        invariant forall q :: pos <= q < i ==> !OccursAt(s, b2, q)
      {
        assert s[i..i + 1] == [s[i]];
        if c0 == d1[i] { return i; }
        i := i + 1;
      }
      return BSTR_ERR;
    }

    r := Scan(b1, pos, b2);
  }

  /** The state of the scan. Everything before base is cleared; from base on, the j pattern
      characters met so far are as many as could be, the first of them at ii. */
  ghost predicate Scanning(s: seq<byte>, p: seq<byte>, pos: nat, base: nat, i: nat, j: nat, ii: int) {
    && pos <= base <= i <= |s| && j < |p|
    && (forall q :: pos <= q < base ==> !OccursAt(s, p, q))
    && !Embeds(p[..j + 1], s[base..i])
    && (j > 0 ==>
          && base <= ii && ii + j <= i
          && (i == ii + j ==> s[ii..i] == p[..j])
          && (forall q :: base <= q < ii ==> !OccursAt(s, p, q)))
  }

  lemma ScanBegins(s: seq<byte>, p: seq<byte>, pos: nat, ii: int)
    requires pos <= |s| && p != []
    ensures Scanning(s, p, pos, pos, pos, 0, ii)
  {
  }

  lemma ScanSkips(s: seq<byte>, p: seq<byte>, pos: nat, base: nat, i: nat, j: nat, ii: int)
    requires Scanning(s, p, pos, base, i, j, ii) && i < |s| && p[j] != s[i]
    ensures Scanning(s, p, pos, base, i + 1, j, ii)
  {
    SkipOne(s, p[..j + 1], base, i);
  }

  lemma ScanMarksStart(s: seq<byte>, p: seq<byte>, pos: nat, base: nat, i: nat, ii: int)
    requires Scanning(s, p, pos, base, i, 0, ii)
    ensures forall q :: base <= q < i ==> !OccursAt(s, p, q)
  {
    forall q | base <= q < i ensures !OccursAt(s, p, q) {
      NothingBeforeFirst(s, p, base, i, q);
    }
  }

  lemma ScanTakes(s: seq<byte>, p: seq<byte>, pos: nat, base: nat, i: nat, j: nat, ii: int)
    requires Scanning(s, p, pos, base, i, j, ii) && i < |s| && p[j] == s[i] && j + 1 < |p|
    ensures Scanning(s, p, pos, base, i + 1, j + 1, if j == 0 then i else ii)
  {
    if j == 0 {
      ScanMarksStart(s, p, pos, base, i, ii);
    }
    TakeOne(s, p, base, i, j);
    var start := if j == 0 then i else ii;
    if i == start + j { GrowRun(s, p, start, j); }
  }

  lemma ScanFinds(s: seq<byte>, p: seq<byte>, pos: nat, base: nat, i: nat, j: nat, ii: int)
    requires Scanning(s, p, pos, base, i, j, ii) && i < |s| && p[j] == s[i] && j + 1 == |p| && j > 0
    requires i == ii + j
    ensures IsFirst(s, p, pos, ii)
  {
    GrowRun(s, p, ii, j);
    assert p[..j + 1] == p;
  }

  lemma ScanRestarts(s: seq<byte>, p: seq<byte>, pos: nat, base: nat, i: nat, j: nat, ii: int)
    requires Scanning(s, p, pos, base, i, j, ii) && i < |s| && p[j] == s[i] && j + 1 == |p| && j > 0
    requires i != ii + j
    ensures base < i - j && Scanning(s, p, pos, i - j, i - j, 0, ii)
  {
    assert p[..j + 1] == p;
    forall q | base <= q < i - j ensures !OccursAt(s, p, q) {
      RestartSkipsNothing(s, p, base, i, q);
    }
    NoEmptyEmbedding(p[..1], s[i - j..i - j]);
  }

  lemma ScanEnds(s: seq<byte>, p: seq<byte>, pos: nat, base: nat, i: nat, j: nat, ii: int)
    requires Scanning(s, p, pos, base, i, j, ii) && |s| <= i + 1
    requires i < |s| && j + 1 == |p| ==> p[j] != s[i]
    ensures IsFirst(s, p, pos, BSTR_ERR)
  {
    forall q | base <= q ensures !OccursAt(s, p, q) {
      NothingAtTheEnd(s, p, base, i, j, q);
    }
  }

  /** The unrolled loop of binstr, for patterns of at least two characters that fit. */
  method Scan(b1: BString, pos: nat, b2: seq<byte>) returns (r: int)
    requires b1.Valid() && |b2| >= 2 && pos + |b2| <= b1.slen
    ensures IsFirst(b1.Contents(), b2, pos, r)
  {
    hide Embeds, OccursAt, IsFirst, Scanning;
    var d1, ll, c0 := b1.data, |b2|, b2[0];
    ghost var s := b1.Contents();
    var i: nat, j: nat, ii, lf, c1 := pos, 0, -1, b1.slen - 1, c0;
    ghost var base: nat := pos;
    ScanBegins(s, b2, pos, ii);
    while true
      invariant Scanning(s, b2, pos, base, i, j, ii) && j < ll && c1 == b2[j]
      invariant base <= i <= |s| && (j > 0 ==> base <= ii && ii + j <= i)
      decreases |s| - base, |s| - i
    {
      if i < lf {
        if c1 != d1[i] {
          ScanSkips(s, b2, pos, base, i, j, ii);
          if c1 != d1[1 + i] {
            ScanSkips(s, b2, pos, base, i + 1, j, ii);
            i := i + 2;
            continue;
          }
          i := i + 1;
        }
        if j + 1 < ll {
          ScanTakes(s, b2, pos, base, i, j, ii);
        }
        if j == 0 { ii := i; }
        j := j + 1;
        i := i + 1;
        if j < ll {
          c1 := b2[j];
          continue;
        }
        if i == ii + j {
          ScanFinds(s, b2, pos, base, i - 1, j - 1, ii);
          return ii;
        }
        ScanRestarts(s, b2, pos, base, i - 1, j - 1, ii);
      } else if i == lf && ll == j + 1 && c1 == d1[i] {
        if i == ii + j {
          ScanFinds(s, b2, pos, base, i, j, ii);
          return ii;
        }
        ScanRestarts(s, b2, pos, base, i, j, ii);
      } else {
        ScanEnds(s, b2, pos, base, i, j, ii);
        return BSTR_ERR;
      }
      i := i - j;
      j := 0;
      c1 := c0;
      base := i;
    }
  }
}
