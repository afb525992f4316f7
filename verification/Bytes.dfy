/** The octet type and the few facts about octet strings that every component shares. */
module Bytes {
  /** An unsigned char. */
  type byte = x: int | 0 <= x < 256

  const CR: byte := 13
  const LF: byte := 10

  /** The C truncation of an int to an unsigned char. */
  function ToByte(x: int): (b: byte) {
    x % 256
  }

  lemma Mod256(q: int, b: byte)
    ensures ToByte(q * 256 + b) == b
  {
  }

  /** pat occurs in s at position q. */
  predicate OccursAt(s: seq<byte>, pat: seq<byte>, q: nat) {
    q + |pat| <= |s| && s[q..q + |pat|] == pat
  }

  lemma SliceOfSlice<T>(s: seq<T>, a: nat, b: nat, c: nat, d: nat)
    requires a <= b <= |s| && c <= d <= b - a
    ensures s[a..b][c..d] == s[a + c..a + d]
  {
    var x, y := s[a..b][c..d], s[a + c..a + d];
    assert |x| == |y|;
    assert forall k :: 0 <= k < |x| ==> x[k] == y[k];
  }

  lemma SuffixOfSuffix<T>(s: seq<T>, a: nat, b: nat)
    requires a <= b <= |s|
    ensures s[a..][b - a..] == s[b..] && s[a..][..b - a] == s[a..b]
  {
  }

  lemma Assoc<T>(a: seq<T>, b: seq<T>, c: seq<T>)
    ensures a + b + c == a + (b + c)
  {
  }
}
