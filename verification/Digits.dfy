/** Three octets as four six-bit values: the same number to the base 256 and to the base 64. */
module Digits {
  import opened Bytes

  /** The number with four digits to the base 64, and the one with three to the base 256. */
  function By64(v0: nat, v1: nat, v2: nat, v3: nat): (x: nat) {
    v0 * 262144 + v1 * 4096 + v2 * 64 + v3
  }

  function By256(b0: byte, b1: byte, b2: byte): (x: nat) {
    b0 * 65536 + b1 * 256 + b2
  }

  /** Digit k of x to the base 256, most significant first. */
  function Octet(x: nat, k: nat): (b: byte)
    requires k < 3
  {
    if k == 0 then x / 65536 % 256 else if k == 1 then x / 256 % 256 else x % 256
  }

  function ValueAt(v: seq<nat>, k: nat): (x: nat) {
    if k < |v| then v[k] else 0
  }

  /** Octet j of what the values spell, four of them to three octets, zeros for the missing ones. */
  function Spelled(v: seq<nat>, j: nat): (b: byte) {
    var g := j / 3 * 4;
    Octet(By64(ValueAt(v, g), ValueAt(v, g + 1), ValueAt(v, g + 2), ValueAt(v, g + 3)), j % 3)
  }

  lemma Digits256(a: byte, b: byte, c: byte)
    ensures var x := By256(a, b, c);
            Octet(x, 0) == a && Octet(x, 1) == b && Octet(x, 2) == c
  {
    var x := By256(a, b, c);
    assert x / 65536 == a && x / 256 == a * 256 + b;
  }

  /** Four six-bit values as three octets. */
  lemma OctetDigits(v0: nat, v1: nat, v2: nat, v3: nat)
    requires v0 < 64 && v1 < 64 && v2 < 64 && v3 < 64
    ensures var x := By64(v0, v1, v2, v3);
            && Octet(x, 0) == ToByte(v0 * 4 + v1 / 16) && Octet(x, 1) == ToByte(v1 * 16 + v2 / 4)
            && Octet(x, 2) == ToByte(v2 * 64 + v3)
  {
    var q1, r1, q2, r2 := v1 / 16, v1 % 16, v2 / 4, v2 % 4;
    var a, b, c := v0 * 4 + q1, r1 * 16 + q2, r2 * 64 + v3;
    assert By64(v0, v1, v2, v3) == By256(a, b, c);
    assert v1 * 16 + q2 == q1 * 256 + b && v2 * 64 + v3 == q2 * 256 + c;
    Mod256(q1, b);
    Mod256(q2, c);
    Digits256(a, b, c);
  }

  lemma SpelledLater(v: seq<nat>, j: nat)
    requires |v| >= 4
    ensures Spelled(v, j + 3) == Spelled(v[4..], j)
  {
    hide By64;
    assert (j + 3) / 3 * 4 == j / 3 * 4 + 4;
  }
}
