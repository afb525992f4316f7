/** The growable octet string of bstrlib: a heap buffer, of which the first slen octets are the
    string. The buffer always has room for one more octet, where the C code keeps a NUL. */
module BStrings {
  import opened Bytes

  const BSTR_OK := 0
  const BSTR_ERR := -1

  predicate PowerOfTwo(n: nat) {
    n == 1 || (n > 0 && n % 2 == 0 && PowerOfTwo(n / 2))
  }

  /** The capacity allocated for a request of i octets: the least power of two above i, at
      least 8. */
  function SnapUpSize(i: nat): (r: nat)
    ensures r > i && r >= 8 && PowerOfTwo(r)
    ensures r == 8 || r <= 2 * i
  {
    if i < 8 then 8 else 2 * SnapUpSize(i / 2)
  }

  lemma {:induction false} SnapUpLeast(i: nat, n: nat)
    requires PowerOfTwo(n) && n > i && n >= 8
    ensures SnapUpSize(i) <= n
  {
    if i >= 8 {
      assert !PowerOfTwo(3) && !PowerOfTwo(5) && !PowerOfTwo(6) && !PowerOfTwo(7);
      SnapUpLeast(i / 2, n / 2);
    } else {
      assert SnapUpSize(i) == 8;
    }
  }

  /** c with the octets from offset at on overwritten by s. */
  function Patched(c: seq<byte>, at: nat, s: seq<byte>): (r: seq<byte>)
    requires at + |s| <= |c|
    ensures |r| == |c|
  {
    c[..at] + s + c[at + |s|..]
  }

  class BString {
    var data: array<byte>
    var slen: nat

    ghost predicate Valid()
      reads this
    {
      slen < data.Length
    }

    ghost function Contents(): (s: seq<byte>)
      requires Valid()
      reads this, data
    {
      data[..slen]
    }

    constructor (s: seq<byte>)
      ensures Valid() && Contents() == s && fresh(data)
      ensures data.Length > |s|
    {
      var buffer := new byte[SnapUpSize(|s|)](_ => 0);
      forall k | 0 <= k < |s| {
        buffer[k] := s[k];
      }
      data, slen := buffer, |s|;
    }

    /** balloc: room for olen octets and a NUL; the string itself does not change. */
    method Alloc(olen: nat)
      requires Valid()
      modifies this
      ensures Valid() && slen == old(slen) && data.Length > olen
      ensures Contents() == old(Contents())
      ensures data == old(data) || fresh(data)
      ensures data.Length >= old(data.Length)
    {
      if olen >= data.Length {
        var x := new byte[SnapUpSize(olen)](_ => 0);
        forall k | 0 <= k < slen {
          x[k] := data[k];
        }
        data := x;
      }
    }

    /** memcpy of s over the string's octets from offset at on. */
    method Overwrite(at: nat, s: seq<byte>)
      requires Valid() && at + |s| <= slen
      modifies data
      ensures Contents() == Patched(old(Contents()), at, s)
    {
      forall k | 0 <= k < |s| {
        data[at + k] := s[k];
      }
    }

    /** memmove within the string: the two stretches may overlap. */
    method Shift(dst: nat, src: nat, len: nat)
      requires Valid() && dst + len <= slen && src + len <= slen
      modifies data
      ensures Contents() == Patched(old(Contents()), dst, old(Contents())[src..src + len])
    {
      forall k | 0 <= k < len {
        data[dst + k] := data[src + k];
      }
    }

    /** Take n more octets of the buffer, whatever they hold, into the string. */
    method Extend(n: nat)
      requires Valid()
      modifies this
      ensures Valid() && slen == old(slen) + n && Contents()[..old(slen)] == old(Contents())
      ensures data == old(data) || fresh(data)
    {
      Alloc(slen + n);
      slen := slen + n;
    }

    /** Shorten the string to its first n octets. */
    method Truncate(n: nat)
      requires Valid() && n <= slen
      modifies this`slen
      ensures Valid() && slen == n && Contents() == old(Contents())[..n]
    {
      slen := n;
    }

    /** bconcat: append the octets of s. */
    method Concat(s: seq<byte>)
      requires Valid()
      modifies this, data
      ensures Valid() && Contents() == old(Contents()) + s
      ensures data == old(data) || fresh(data)
    {
      var d := slen;
      Extend(|s|);
      Overwrite(d, s);
    }

    /** bInsertChrs at the end of the string: append len copies of c. */
    method AppendChars(len: nat, c: byte)
      requires Valid()
      modifies this, data
      ensures Valid() && Contents() == old(Contents()) + seq(len, _ => c)
      ensures data == old(data) || fresh(data)
    {
      Concat(seq(len, _ => c));
    }

    /** bdelete at the front: drop the first len octets by moving the rest down. */
    method DeleteFront(len: nat)
      requires Valid() && len <= slen
      modifies this, data
      ensures Valid() && Contents() == old(Contents())[len..]
      ensures data == old(data)
    {
      ghost var c := Contents();
      Shift(0, len, slen - len);
      ghost var moved := Contents();
      assert moved[..slen - len] == c[len..];
      Truncate(slen - len);
    }

    /** binsert at the front: move the string up and copy s in before it. */
    method InsertFront(s: seq<byte>)
      requires Valid()
      modifies this, data
      ensures Valid() && Contents() == s + old(Contents())
      ensures data == old(data) || fresh(data)
    {
      hide Patched;
      var d := slen;
      ghost var c0 := Contents();
      Extend(|s|);
      ghost var c := Contents();
      Shift(|s|, 0, d);
      Overwrite(0, s);
      Inserted(c, c0, s);
    }
  }

  lemma Inserted(c: seq<byte>, c0: seq<byte>, s: seq<byte>)
    requires |c| == |c0| + |s| && c[..|c0|] == c0
    ensures Patched(Patched(c, |s|, c[0..|c0|]), 0, s) == s + c0
  {
  }
}
