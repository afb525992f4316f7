/** Cutting a string at the leftmost non-overlapping occurrences of a separator, and putting the
    pieces together again: the meaning that replacing and splitting share. */
module Pieces {
  import opened Bytes
  import opened BStrings
  import opened Search

  /** The entries of pieces one after the other, with sep in between. */
  function Join(pieces: seq<seq<byte>>, sep: seq<byte>): (s: seq<byte>) {
    if |pieces| == 0 then []
    else if |pieces| == 1 then pieces[0]
    else pieces[0] + sep + Join(pieces[1..], sep)
  }

  /** The first occurrence of pat in s from pos on. */
  function FindFrom(s: seq<byte>, pat: seq<byte>, pos: nat): (q: int)
    ensures IsFirst(s, pat, pos, q)
    ensures q == BSTR_ERR || pos <= q <= q + |pat| <= |s|
    decreases |s| - pos
  {
    if pos + |pat| > |s| then BSTR_ERR
    else if OccursAt(s, pat, pos) then pos
    else FindFrom(s, pat, pos + 1)
  }

  /** What lies before, between and after the leftmost non-overlapping occurrences of sep. */
  function Cut(s: seq<byte>, sep: seq<byte>): (pieces: seq<seq<byte>>)
    requires sep != []
    ensures |pieces| > 0
    decreases |s|
  {
    var q := FindFrom(s, sep, 0);
    if q < 0 then [s] else [s[..q]] + Cut(s[q + |sep|..], sep)
  }

  /** pieces is a way to cut s at occurrences of sep, taking at each cut the first one there is. */
  ghost predicate IsCut(s: seq<byte>, sep: seq<byte>, pieces: seq<seq<byte>>) {
    && |pieces| > 0
    && Join(pieces, sep) == s
    && (forall k :: 0 <= k < |pieces| - 1 ==> IsFirst(pieces[k] + sep, sep, 0, |pieces[k]|))
    && IsFirst(pieces[|pieces| - 1], sep, 0, BSTR_ERR)
  }

  /** The first occurrence in s is the first one in any longer stretch that begins like s. */
  lemma FirstInPrefix(s: seq<byte>, pat: seq<byte>, q: nat)
    requires IsFirst(s, pat, 0, q)
    ensures IsFirst(s[..q + |pat|], pat, 0, q)
    ensures s[..q + |pat|] == s[..q] + pat
  {
    var t := s[..q + |pat|];
    assert t[q..q + |pat|] == s[q..q + |pat|];
    forall k: nat | k < q
      ensures !OccursAt(t, pat, k)
    {
      if k + |pat| <= |t| {
        assert t[k..k + |pat|] == s[k..k + |pat|];
        assert !OccursAt(s, pat, k);
      }
    }
  }

  lemma FirstExtends(t: seq<byte>, rest: seq<byte>, pat: seq<byte>, q: nat)
    requires IsFirst(t, pat, 0, q)
    ensures IsFirst(t + rest, pat, 0, q)
  {
    var s := t + rest;
    assert s[q..q + |pat|] == t[q..q + |pat|];
    forall k: nat | k < q
      ensures !OccursAt(s, pat, k)
    {
      assert s[k..k + |pat|] == t[k..k + |pat|];
      assert !OccursAt(t, pat, k);
    }
  }

  /** Cut delivers such a cut, so joining the pieces again restores the string. */
  lemma {:induction false} CutIsCut(s: seq<byte>, sep: seq<byte>)
    requires sep != []
    ensures IsCut(s, sep, Cut(s, sep))
    decreases |s|
  {
    var q := FindFrom(s, sep, 0);
    if q >= 0 {
      var rest := Cut(s[q + |sep|..], sep);
      CutIsCut(s[q + |sep|..], sep);
      FirstInPrefix(s, sep, q);
      var pieces := [s[..q]] + rest;
      assert pieces[1..] == rest;
      assert s == s[..q] + sep + s[q + |sep|..];
      forall k | 0 <= k < |pieces| - 1
        ensures IsFirst(pieces[k] + sep, sep, 0, |pieces[k]|)
      {
        if k > 0 {
          assert pieces[k] == rest[k - 1];
        }
      }
    }
  }

  lemma CutStep(piece: seq<byte>, tail: seq<byte>, sep: seq<byte>)
    requires sep != [] && IsFirst(piece + sep, sep, 0, |piece|)
    ensures Cut(piece + sep + tail, sep) == [piece] + Cut(tail, sep)
  {
    var s, q := piece + sep + tail, |piece|;
    FirstExtends(piece + sep, tail, sep, q);
    IsFirstUnique(s, sep, 0, FindFrom(s, sep, 0), q);
    assert s[q + |sep|..] == tail && s[..q] == piece;
  }

  /** There is only one such cut, so it is the meaning of Cut. */
  lemma {:induction false} CutUnique(s: seq<byte>, sep: seq<byte>, pieces: seq<seq<byte>>)
    requires sep != [] && IsCut(s, sep, pieces)
    ensures pieces == Cut(s, sep)
    decreases |pieces|
  {
    if |pieces| == 1 {
      IsFirstUnique(s, sep, 0, FindFrom(s, sep, 0), BSTR_ERR);
      assert pieces == [s];
    } else {
      var rest := pieces[1..];
      CutStep(pieces[0], Join(rest, sep), sep);
      assert IsCut(Join(rest, sep), sep, rest) by {
        forall k | 0 <= k < |rest| - 1
          ensures IsFirst(rest[k] + sep, sep, 0, |rest[k]|)
        {
          assert rest[k] == pieces[k + 1];
        }
      }
      CutUnique(Join(rest, sep), sep, rest);
      assert pieces == [pieces[0]] + rest;
    }
  }

  lemma JoinCons(piece: seq<byte>, rest: seq<seq<byte>>, sep: seq<byte>)
    requires |rest| > 0
    ensures Join([piece] + rest, sep) == piece + sep + Join(rest, sep)
  {
  }

  /** The first occurrence from pos on, seen from the suffix that starts there. */
  lemma FirstInSuffix(s: seq<byte>, pat: seq<byte>, pos: nat, q: int)
    requires pos <= |s| && IsFirst(s, pat, pos, q)
    ensures IsFirst(s[pos..], pat, 0, if q < 0 then BSTR_ERR else q - pos)
    ensures FindFrom(s[pos..], pat, 0) == if q < 0 then BSTR_ERR else q - pos
  {
    var t, r := s[pos..], if q < 0 then BSTR_ERR else q - pos;
    if q >= 0 {
      assert t[r..r + |pat|] == s[q..q + |pat|];
    }
    forall k: nat | r == BSTR_ERR || k < r
      ensures !OccursAt(t, pat, k)
    {
      assert !OccursAt(s, pat, pos + k);
      if k + |pat| <= |t| {
        assert t[k..k + |pat|] == s[pos + k..pos + k + |pat|];
      }
    }
    IsFirstUnique(t, pat, 0, FindFrom(t, pat, 0), r);
  }
}
