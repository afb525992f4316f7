/** The Secure Hash Algorithm as FIPS PUB 180-1 defines it, on a whole message at once, and the
    incremental implementation that buffers one block. */
module Sha1Spec {
  import opened Bytes

  /** A 32-bit word. */
  type word = bv32

  /** Addition modulo 2^32, as section 3 has it. */
  function Plus(x: word, y: word): word { x + y }

  datatype Hash = Hash(a: word, b: word, c: word, d: word, e: word)

  /** S^n of section 3. */
  function S1(x: word): word { (x << 1) | (x >> 31) }
  function S5(x: word): word { (x << 5) | (x >> 27) }
  function S30(x: word): word { (x << 30) | (x >> 2) }

  /** The functions of section 5. */
  function F(t: nat, b: word, c: word, d: word): word
    requires t < 80
  {
    if t < 20 then (b & c) | (!b & d)
    else if t < 40 then b ^ c ^ d
    else if t < 60 then (b & c) | (b & d) | (c & d)
    else b ^ c ^ d
  }

  /** The constants of section 6. */
  function K(t: nat): word
    requires t < 80
  {
    if t < 20 then 0x5A827999 else if t < 40 then 0x6ED9EBA1 else if t < 60 then 0x8F1BBCDC else 0xCA62C1D6
  }

  /** Four octets in a word, the first one highest. */
  function Packed(b0: bv8, b1: bv8, b2: bv8, b3: bv8): word {
    ((b0 as bv32) << 24) | ((b1 as bv32) << 16) | ((b2 as bv32) << 8) | (b3 as bv32)
  }

  /** Word t of a block, most significant octet first. */
  function Pack(block: seq<byte>, t: nat): word
    requires |block| == 64 && t < 16
  {
    Packed(block[t * 4] as bv8, block[t * 4 + 1] as bv8, block[t * 4 + 2] as bv8, block[t * 4 + 3] as bv8)
  }

  /** Step b of section 7. */
  function Mixed(w3: word, w8: word, w14: word, w16: word): word {
    S1(w3 ^ w8 ^ w14 ^ w16)
  }

  /** The word sequence of section 7, steps a and b. */
  function W(block: seq<byte>, t: nat): word
    requires |block| == 64 && t < 80
  {
    if t < 16 then Pack(block, t)
    else Mixed(W(block, t - 3), W(block, t - 8), W(block, t - 14), W(block, t - 16))
  }

  lemma WFirst(block: seq<byte>, t: nat)
    requires |block| == 64 && t < 16
    ensures W(block, t) == Pack(block, t)
  {
  }

  lemma WNext(block: seq<byte>, t: nat)
    requires |block| == 64 && 16 <= t < 80
    ensures W(block, t) == Mixed(W(block, t - 3), W(block, t - 8), W(block, t - 14), W(block, t - 16))
  {
    hide Mixed, Pack;
  }

  /** Step d, once. */
  function Round(t: nat, w: word, s: Hash): Hash
    requires t < 80
  {
    Hash(Plus(Plus(Plus(Plus(S5(s.a), F(t, s.b, s.c, s.d)), s.e), w), K(t)), s.a, S30(s.b), s.c, s.d)
  }

  /** Step d for the rounds before t, from the buffers of step c. */
  function Rounds(block: seq<byte>, h: Hash, t: nat): Hash
    requires |block| == 64 && t <= 80
  {
    if t == 0 then h else Round(t - 1, W(block, t - 1), Rounds(block, h, t - 1))
  }

  /** Step e. */
  function Add(h: Hash, s: Hash): Hash {
    Hash(Plus(h.a, s.a), Plus(h.b, s.b), Plus(h.c, s.c), Plus(h.d, s.d), Plus(h.e, s.e))
  }

  const INITIAL := Hash(0x67452301, 0xEFCDAB89, 0x98BADCFE, 0x10325476, 0xC3D2E1F0)

  /** The digest after the whole blocks of m. */
  function Blocks(m: seq<byte>): Hash
    decreases |m|
  {
    if |m| < 64 then INITIAL
    else
      Compress(Blocks(m[..|m| - 64]), m[|m| - 64..])
  }

  /** What one block makes of the digest: steps c to e. */
  function Compress(h: Hash, block: seq<byte>): Hash
    requires |block| == 64
  {
    Add(h, Rounds(block, h, 80))
  }

  lemma BlocksStep(m: seq<byte>)
    requires |m| >= 64
    ensures Blocks(m) == Compress(Blocks(m[..|m| - 64]), m[|m| - 64..])
  {
    hide Rounds, Add;
  }

  lemma RoundsStep(block: seq<byte>, h: Hash, t: nat)
    requires |block| == 64 && t <= 80
    ensures Rounds(block, h, t) == if t == 0 then h else Round(t - 1, W(block, t - 1), Rounds(block, h, t - 1))
  {
    hide W, Round;
  }

  lemma NoBlocks()
    ensures Blocks([]) == INITIAL
  {
  }

  function Zeros(n: nat): (z: seq<byte>)
    ensures |z| == n
  {
    seq(n, _ => 0)
  }

  /** The 64-bit length field for a message of that many bits. */
  function LengthField(bits: nat): (f: seq<byte>)
    requires bits < 0x1_0000_0000_0000_0000
    ensures |f| == 8
  {
    seq(8, i requires 0 <= i < 8 => Octet(bits, 7 - i))
  }

  /** Octet i, counted from the least significant. */
  function Octet(n: nat, i: nat): byte {
    if i == 0 then n % 256 else Octet(n / 256, i - 1)
  }

  /** A message, the one bit and n octets of zeros. */
  function Marked(m: seq<byte>, n: nat): (p: seq<byte>) {
    m + [0x80] + Zeros(n)
  }

  /** The zeros needed after a one bit and r octets of the last block, to leave room for the
      length at the end of a block. */
  function Fill(r: nat): nat
    requires r < 64
  {
    (119 - r) % 64
  }

  lemma ZeroCount(r: nat)
    requires r < 64
    ensures Fill(r) == if r <= 55 then 55 - r else 119 - r
  {
  }

  /** The padded message of section 4: a one bit, zeros up to 448 modulo 512, the length. */
  function Pad(m: seq<byte>): (p: seq<byte>)
    requires 8 * |m| < 0x1_0000_0000_0000_0000
  {
    Marked(m, Fill(|m| % 64)) + LengthField(8 * |m|)
  }

  /** The message digest. */
  function Sha1(m: seq<byte>): Hash
    requires 8 * |m| < 0x1_0000_0000_0000_0000
  {
    Blocks(Pad(m))
  }

  lemma PaddedLength(m: seq<byte>)
    requires 8 * |m| < 0x1_0000_0000_0000_0000
    ensures |Pad(m)| % 64 == 0
  {
  }
}

module Sha1 {
  import opened Bytes
  import opened Sha1Spec

  class Context {
    const digest: array<word>
    var lengthLow: nat
    var lengthHigh: nat
    const block: array<byte>
    var index: nat
    var computed: bool
    var corrupted: bool
    ghost var message: seq<byte>

    ghost predicate Shape() {
      digest.Length == 5 && block.Length == 64
    }

    ghost function Current(): Hash
      requires Shape()
      reads digest
    {
      Hash(digest[0], digest[1], digest[2], digest[3], digest[4])
    }

    /** The digest covers the whole blocks of p before the last index octets, and those are the
        first index octets of the buffer. */
    ghost predicate Buffered(p: seq<byte>)
      requires Shape()
      reads `index, digest, block
    {
      && index <= 64 && index <= |p| && (|p| - index) % 64 == 0
      && (forall k :: 0 <= k < index ==> block[k] == p[|p| - index + k])
      && Current() == Blocks(p[..|p| - index])
    }

    /** While the message is still coming in, it is buffered and the length pair counts its bits. */
    ghost predicate Collecting()
      requires Shape()
      reads this, digest, block
    {
      Buffered(message) && Counts(lengthHigh, lengthLow, |message|)
    }

    ghost predicate Valid()
      reads this, digest, block
    {
      && Shape() && index < 64
      && (!corrupted && !computed ==> Collecting())
      && (!corrupted && computed ==> Hashed(Current(), message))
    }

    constructor ()
      ensures Shape() && fresh(digest) && fresh(block)
    {
      digest := new word[5](_ => 0);
      block := new byte[64](_ => 0);
      lengthLow, lengthHigh, index, computed, corrupted, message := 0, 0, 0, false, false, [];
    }

    /** SHA1Reset */
    method Reset()
      requires Shape()
      modifies this, digest
      ensures Valid() && message == [] && !computed && !corrupted
    {
      hide Blocks, Sha1;
      NoBlocks();
      lengthLow, lengthHigh, index := 0, 0, 0;
      SetDigest(INITIAL);
      computed, corrupted, message := false, false, [];
      assert message[..0] == [];
    }

    method SetDigest(h: Hash)
      requires Shape()
      modifies digest
      ensures Current() == h
    {
      digest[0], digest[1], digest[2], digest[3], digest[4] := h.a, h.b, h.c, h.d, h.e;
    }

    /** The loops that fill W. */
    method Expand(w: array<word>)
      requires Shape() && w.Length == 80
      modifies w
      ensures forall k :: 0 <= k < 80 ==> w[k] == W(block[..], k)
    {
      hide Mixed, W, Pack;
      ghost var b := block[..];
      var t := 0;
      while t < 16
        invariant 0 <= t <= 16 && block[..] == b && forall k :: 0 <= k < t ==> w[k] == W(b, k)
      {
        WFirst(b, t);
        w[t] := PackWord(t);
        t := t + 1;
      }
      while t < 80
        invariant 16 <= t <= 80 && block[..] == b && forall k :: 0 <= k < t ==> w[k] == W(b, k)
      {
        WNext(b, t);
        w[t] := Mix(w[t - 3], w[t - 8], w[t - 14], w[t - 16]);
        t := t + 1;
      }
    }

    /** One turn of the second loop. */
    method Mix(w3: word, w8: word, w14: word, w16: word) returns (x: word)
      ensures x == Mixed(w3, w8, w14, w16)
    {
      x := S1(w3 ^ w8 ^ w14 ^ w16);
    }

    /** One turn of the first loop: four octets make a word. */
    method PackWord(t: nat) returns (x: word)
      requires Shape() && t < 16
      ensures x == Pack(block[..], t)
    {
      x := (block[t * 4] as bv8 as bv32) << 24;
      x := x | ((block[t * 4 + 1] as bv8 as bv32) << 16);
      x := x | ((block[t * 4 + 2] as bv8 as bv32) << 8);
      x := x | (block[t * 4 + 3] as bv8 as bv32);
    }

    /** The eighty rounds, in the four loops of the source, from the digest h. */
    method RunRounds(w: array<word>, h: Hash, ghost b: seq<byte>) returns (s: Hash)
      requires w.Length == 80 && |b| == 64 && forall k :: 0 <= k < 80 ==> w[k] == W(b, k)
      ensures s == Rounds(b, h, 80)
    {
      hide W, Rounds, Round, S30;
      var A, B, C, D, E := h.a, h.b, h.c, h.d, h.e;
      RoundsStep(b, h, 0);
      var t := 0;
      while t < 20
        invariant 0 <= t <= 20 && Hash(A, B, C, D, E) == Rounds(b, h, t)
      {
        var temp := ChoiceTemp(A, B, C, D, E, w[t], t);
        RoundsStep(b, h, t + 1);
        E := D; D := C; C := S30(B); B := A; A := temp;
        t := t + 1;
      }
      while t < 40
        invariant 20 <= t <= 40 && Hash(A, B, C, D, E) == Rounds(b, h, t)
      {
        var temp := ParityTemp(A, B, C, D, E, w[t], t);
        RoundsStep(b, h, t + 1);
        E := D; D := C; C := S30(B); B := A; A := temp;
        t := t + 1;
      }
      while t < 60
        invariant 40 <= t <= 60 && Hash(A, B, C, D, E) == Rounds(b, h, t)
      {
        var temp := MajorityTemp(A, B, C, D, E, w[t], t);
        RoundsStep(b, h, t + 1);
        E := D; D := C; C := S30(B); B := A; A := temp;
        t := t + 1;
      }
      while t < 80
        invariant 60 <= t <= 80 && Hash(A, B, C, D, E) == Rounds(b, h, t)
      {
        var temp := LastTemp(A, B, C, D, E, w[t], t);
        RoundsStep(b, h, t + 1);
        E := D; D := C; C := S30(B); B := A; A := temp;
        t := t + 1;
      }
      s := Hash(A, B, C, D, E);
    }

    /** The temp of the first loop. */
    method ChoiceTemp(A: word, B: word, C: word, D: word, E: word, w: word, ghost t: nat) returns (temp: word)
      requires 0 <= t < 20
      ensures Round(t, w, Hash(A, B, C, D, E)) == Hash(temp, A, S30(B), C, D)
    {
      hide S5, S30, Plus;
      temp := Plus(Plus(Plus(Plus(S5(A), ((B & C) | (!B & D))), E), w), 0x5A827999);
    }

    /** The temp of the second loop. */
    method ParityTemp(A: word, B: word, C: word, D: word, E: word, w: word, ghost t: nat) returns (temp: word)
      requires 20 <= t < 40
      ensures Round(t, w, Hash(A, B, C, D, E)) == Hash(temp, A, S30(B), C, D)
    {
      hide S5, S30, Plus;
      temp := Plus(Plus(Plus(Plus(S5(A), (B ^ C ^ D)), E), w), 0x6ED9EBA1);
    }

    /** The temp of the third loop. */
    method MajorityTemp(A: word, B: word, C: word, D: word, E: word, w: word, ghost t: nat) returns (temp: word)
      requires 40 <= t < 60
      ensures Round(t, w, Hash(A, B, C, D, E)) == Hash(temp, A, S30(B), C, D)
    {
      hide S5, S30, Plus;
      temp := Plus(Plus(Plus(Plus(S5(A), ((B & C) | (B & D) | (C & D))), E), w), 0x8F1BBCDC);
    }

    /** The temp of the last loop. */
    method LastTemp(A: word, B: word, C: word, D: word, E: word, w: word, ghost t: nat) returns (temp: word)
      requires 60 <= t < 80
      ensures Round(t, w, Hash(A, B, C, D, E)) == Hash(temp, A, S30(B), C, D)
    {
      hide S5, S30, Plus;
      temp := Plus(Plus(Plus(Plus(S5(A), (B ^ C ^ D)), E), w), 0xCA62C1D6);
    }

    /** SHA1ProcessMessageBlock */
    method ProcessMessageBlock()
      requires Shape()
      modifies this`index, digest
      ensures index == 0
      ensures Current() == Compress(old(Current()), old(block[..]))
    {
      hide Rounds, W, Plus;
      var w := new word[80](_ => 0);
      Expand(w);
      var h := Hash(digest[0], digest[1], digest[2], digest[3], digest[4]);
      var s := RunRounds(w, h, block[..]);
      SetDigest(Add(h, s));
      index := 0;
    }

    /** Eight more bits: a carry out of the low word goes into the high word, and a carry out of
        that one corrupts the context. */
    method CountOctet(ghost n: nat)
      requires Counts(lengthHigh, lengthLow, n) && !corrupted
      modifies this`lengthLow, this`lengthHigh, this`corrupted
      ensures corrupted <==> 8 * (n + 1) == 0x1_0000_0000_0000_0000
      ensures !corrupted ==> Counts(lengthHigh, lengthLow, n + 1)
    {
      lengthLow := (lengthLow + 8) % 0x1_0000_0000;
      if lengthLow == 0 {
        lengthHigh := (lengthHigh + 1) % 0x1_0000_0000;
        if lengthHigh == 0 {
          corrupted := true;
        }
      }
    }

    /** The turn of the loop of SHA1Input: store an octet, count its bits, process the block if it
        is full. */
    method InputOctet(x: byte)
      requires Valid() && !corrupted && !computed
      modifies this, digest, block
      ensures Valid() && !computed && message == old(message) + [x]
      ensures corrupted <==> 8 * |message| == 0x1_0000_0000_0000_0000
    {
      hide Buffered, Counts;
      ghost var m := message + [x];
      Put(x, message);
      CountOctet(|message|);
      message := m;
      if index == 64 {
        ProcessFull(m);
      }
    }

    lemma BufferedLength(p: seq<byte>)
      requires Shape() && Buffered(p)
      ensures index <= 64 && (index < 64 ==> index == |p| % 64)
    {
      hide Blocks;
      Remainder(|p|, index);
    }

    /** Message_Block[Message_Block_Index++] = x */
    method Put(x: byte, ghost p: seq<byte>)
      requires Shape() && index < 64 && Buffered(p)
      modifies this`index, block
      ensures Buffered(p + [x]) && index == old(index) + 1
    {
      hide Blocks;
      block[index] := x;
      index := index + 1;
      assert (p + [x])[..|p + [x]| - index] == p[..|p| - (index - 1)];
    }

    /** A full buffer is processed. */
    method ProcessFull(ghost p: seq<byte>)
      requires Shape() && index == 64 && Buffered(p)
      modifies this`index, digest
      ensures Buffered(p) && index == 0
    {
      hide Blocks, Compress;
      BlockFull(p);
      ProcessMessageBlock();
    }

    lemma BlockFull(m: seq<byte>)
      requires Shape() && |m| >= 64 && forall k :: 0 <= k < 64 ==> block[k] == m[|m| - 64 + k]
      ensures Blocks(m) == Compress(Blocks(m[..|m| - 64]), block[..]) && m[..|m|] == m
    {
      assert block[..] == m[|m| - 64..];
      BlocksStep(m);
    }

    /** SHA1Input: octets go in one by one until the length wraps; input after the result, or into
        a corrupted context, corrupts it. */
    method Input(m: seq<byte>)
      requires Valid()
      modifies this, digest, block
      ensures Valid() && computed == old(computed)
      ensures m == [] ==> corrupted == old(corrupted) && message == old(message)
      ensures m != [] && old(computed || corrupted) ==> corrupted
      ensures m != [] && !old(computed || corrupted) ==>
                && (corrupted <==> 8 * (|old(message)| + |m|) >= 0x1_0000_0000_0000_0000)
                && (!corrupted ==> message == old(message) + m)
    {
      hide Blocks, Sha1;
      if |m| == 0 { return; }
      if computed || corrupted {
        corrupted := true;
        return;
      }
      var i := 0;
      while i < |m| && !corrupted
        invariant 0 <= i <= |m| && Valid() && !computed
        invariant message == old(message) + m[..i]
        invariant corrupted <==> 8 * |message| >= 0x1_0000_0000_0000_0000
      {
        InputOctet(m[i]);
        i := i + 1;
      }
    }

    /** The padding loops: zeros up to the given place. */
    method PutZeros(until: nat, ghost p: seq<byte>) returns (ghost p': seq<byte>)
      requires Shape() && until <= 64 && index <= until && Buffered(p)
      modifies this`index, block
      ensures index == until && p' == p + Zeros(until - old(index)) && Buffered(p')
    {
      hide Blocks, Buffered;
      p' := p;
      ghost var n := 0;
      while index < until
        invariant index == old(index) + n <= until && Buffered(p') && p' == p + Zeros(n)
      {
        Put(0, p');
        p' := p' + [0];
        n := n + 1;
      }
    }

    /** The message length in the last eight octets of the block. */
    method PutLength(ghost p: seq<byte>, ghost n: nat)
      requires Shape() && index == 56 && Buffered(p) && Counts(lengthHigh, lengthLow, n)
      modifies this`index, block
      ensures 8 * n < 0x1_0000_0000_0000_0000 && Buffered(p + LengthField(8 * n)) && index == 64
    {
      hide Blocks, LengthField;
      BitCount(lengthHigh, lengthLow, n);
      ghost var f := LengthField(8 * n);
      StoreLength();
      index := 64;
      assert (p + f)[..|p + f| - 64] == p[..|p| - 56];
      assert forall k :: 56 <= k < 64 ==> block[k] == f[k - 56];
    }

    method StoreLength()
      requires Shape() && lengthLow < 0x1_0000_0000 && lengthHigh < 0x1_0000_0000
      modifies block
      ensures forall k :: 0 <= k < 56 ==> block[k] == old(block[k])
      ensures lengthHigh * 0x1_0000_0000 + lengthLow < 0x1_0000_0000_0000_0000
      ensures forall k :: 56 <= k < 64 ==> block[k] == LengthField(lengthHigh * 0x1_0000_0000 + lengthLow)[k - 56]
    {
      hide LengthField;
      LengthOctets(lengthHigh, lengthLow);
      block[56] := lengthHigh / 0x100_0000 % 256;
      block[57] := lengthHigh / 0x1_0000 % 256;
      block[58] := lengthHigh / 0x100 % 256;
      block[59] := lengthHigh % 256;
      block[60] := lengthLow / 0x100_0000 % 256;
      block[61] := lengthLow / 0x1_0000 % 256;
      block[62] := lengthLow / 0x100 % 256;
      block[63] := lengthLow % 256;
    }

    /** The first branch of SHA1PadMessage: no room for the length in this block. */
    method PadIntoNext(ghost m: seq<byte>) returns (ghost p: seq<byte>)
      requires Shape() && 55 < index < 64 && Buffered(m)
      modifies this`index, digest, block
      ensures index == 56 && Buffered(p) && p == Marked(m, 119 - old(index))
    {
      hide Blocks, Buffered;
      ghost var z := 63 - index;
      Put(0x80, m);
      p := PutZeros(64, m + [0x80]);
      ProcessFull(p);
      p := PutZeros(56, p);
      ZerosAppend(z, 56);
      Assoc(m + [0x80], Zeros(z), Zeros(56));
    }

    /** Its second branch. */
    method PadHere(ghost m: seq<byte>) returns (ghost p: seq<byte>)
      requires Shape() && index <= 55 && Buffered(m)
      modifies this`index, block
      ensures index == 56 && Buffered(p) && p == Marked(m, 55 - old(index))
    {
      hide Blocks, Buffered, Zeros;
      Put(0x80, m);
      p := PutZeros(56, m + [0x80]);
    }

    /** The two branches together: padding up to the length field. */
    method PadToLength(ghost m: seq<byte>) returns (ghost p: seq<byte>)
      requires Shape() && index < 64 && Buffered(m) && 8 * |m| < 0x1_0000_0000_0000_0000
      modifies this`index, digest, block
      ensures index == 56 && Buffered(p) && p + LengthField(8 * |m|) == Pad(m)
    {
      hide Blocks, Buffered, LengthField, Fill, Marked, Pad;
      BufferedLength(m);
      ZeroCount(index);
      if index > 55 {
        p := PadIntoNext(m);
      } else {
        p := PadHere(m);
      }
      Padded(m, p);
    }

    /** SHA1PadMessage */
    method PadMessage()
      requires Valid() && !corrupted && !computed
      modifies this`index, digest, block
      ensures index == 0 && Hashed(Current(), message)
    {
      hide Blocks, Buffered, LengthField, Counts, Pad, Hashed;
      BitCount(lengthHigh, lengthLow, |message|);
      ghost var p := PadToLength(message);
      PutLength(p, |message|);
      p := Pad(message);
      ProcessFull(p);
      AllProcessed(p);
      AreHashed(message);
    }

    /** SHA1Result: the first call pads, later ones repeat the answer. */
    method Result() returns (ok: bool)
      requires Valid()
      modifies this, digest, block
      ensures Valid() && message == old(message) && corrupted == old(corrupted)
      ensures ok == !corrupted
      ensures computed == old(computed || !corrupted)
      ensures ok ==> Hashed(Current(), message)
    {
      hide Buffered, Counts, Hashed;
      if corrupted { return false; }
      if !computed {
        PadMessage();
        computed := true;
      }
      return true;
    }

    /** Any run of calls on a reset context, and its result: the result fails exactly if the octets
        before the first result are too many or some follow it, and is the digest of those octets
        otherwise, in whatever pieces they came. */
    method HashCalls(calls: seq<Call>) returns (ok: bool)
      requires Shape()
      modifies this, digest, block
      ensures Valid() && ok == !corrupted
      ensures ok <==> 8 * |Fed(calls)| < 0x1_0000_0000_0000_0000 && !InputFollowsResult(calls)
      ensures ok ==> Current() == Sha1(Fed(calls))
    {
      hide Valid, Hashed, Fed, Sha1, InputFollowsResult, Step;
      Reset();
      var i := 0;
      while i < |calls|
        invariant 0 <= i <= |calls| && Shape() && Valid() && Stands(calls[..i])
      {
        Apply(calls[i], Run(calls[..i]));
        assert calls[..i + 1][..i] == calls[..i];
        i := i + 1;
      }
      assert calls[..i] == calls;
      CorruptedExactly(calls);
      ok := Result();
      if ok { IsHashed(Fed(calls)); }
    }

    /** The context stands as the abstract run of the calls says. */
    ghost predicate Stands(calls: seq<Call>)
      reads this
    {
      IsAt(Run(calls))
    }

    ghost predicate IsAt(s: Status)
      reads this
    {
      && corrupted == s.corrupted
      && (!corrupted ==> computed == s.computed && message == s.message)
    }

    method Apply(call: Call, ghost s: Status)
      requires Valid() && IsAt(s)
      modifies this, digest, block
      ensures Valid() && IsAt(Step(s, call))
    {
      hide Valid, Hashed;
      match call
      case Feed(m) => Input(m);
      case Ask => var _ := Result();
    }

    lemma IsHashed(m: seq<byte>)
      requires Shape() && Hashed(Current(), m)
      ensures 8 * |m| < 0x1_0000_0000_0000_0000 && Current() == Sha1(m)
    {
      hide Sha1;
    }

    lemma AllProcessed(p: seq<byte>)
      requires Shape() && index == 0 && Buffered(p)
      ensures Current() == Blocks(p)
    {
      assert p[..|p|] == p;
    }
  }

  /** The calls a caller can make after the reset: SHA1Input and SHA1Result. */
  datatype Call = Feed(m: seq<byte>) | Ask

  /** What the calls before the first result have fed. */
  function Fed(calls: seq<Call>): seq<byte> {
    if calls == [] then []
    else
      var before := calls[..|calls| - 1];
      match calls[|calls| - 1]
      case Feed(m) => if Ask in before then Fed(before) else Fed(before) + m
      case Ask => Fed(before)
  }

  ghost predicate InputFollowsResult(calls: seq<Call>) {
    exists i, j :: 0 <= i < j < |calls| && calls[i].Ask? && calls[j].Feed? && calls[j].m != []
  }

  /** What of a context the calls change, apart from the digest. */
  datatype Status = Status(message: seq<byte>, computed: bool, corrupted: bool)

  function Step(s: Status, call: Call): Status {
    match call
    case Feed(m) =>
      if m == [] then s
      else if s.computed || s.corrupted then s.(corrupted := true)
      else s.(message := s.message + m, corrupted := 8 * (|s.message| + |m|) >= 0x1_0000_0000_0000_0000)
    case Ask => if s.corrupted then s else s.(computed := true)
  }

  function Run(calls: seq<Call>): Status {
    if calls == [] then Status([], false, false) else Step(Run(calls[..|calls| - 1]), calls[|calls| - 1])
  }

  lemma FollowsStep(before: seq<Call>, last: Call)
    ensures InputFollowsResult(before + [last]) <==>
              InputFollowsResult(before) || (last.Feed? && last.m != [] && Ask in before)
  {
    var calls := before + [last];
    if InputFollowsResult(before) {
      var i, j :| 0 <= i < j < |before| && before[i].Ask? && before[j].Feed? && before[j].m != [];
      assert calls[i] == before[i] && calls[j] == before[j];
    }
    if last.Feed? && last.m != [] && Ask in before {
      var i :| 0 <= i < |before| && before[i] == Ask;
      assert calls[i] == Ask && calls[|before|] == last;
    }
    if InputFollowsResult(calls) {
      var i, j :| 0 <= i < j < |calls| && calls[i].Ask? && calls[j].Feed? && calls[j].m != [];
      assert before[i] == Ask;
      if j < |before| {
        assert before[j] == calls[j];
      }
    }
  }

  lemma NothingFollows()
    ensures !InputFollowsResult([])
  {
  }

  /** A context is corrupted exactly if the bits of the octets before the first result do not fit
      64 bits, or input follows a result. */
  lemma {:induction false} CorruptedExactly(calls: seq<Call>)
    ensures Run(calls).corrupted <==> 8 * |Fed(calls)| >= 0x1_0000_0000_0000_0000 || InputFollowsResult(calls)
    ensures !Run(calls).corrupted ==> Run(calls).message == Fed(calls) && (Run(calls).computed <==> Ask in calls)
  {
    hide InputFollowsResult;
    if calls != [] {
      var before, last := calls[..|calls| - 1], calls[|calls| - 1];
      CorruptedExactly(before);
      FollowsStep(before, last);
      assert calls == before + [last];
    } else {
      NothingFollows();
    }
  }

  /** The length pair counts the bits of n octets. */
  predicate Counts(high: nat, low: nat, n: nat) {
    low < 0x1_0000_0000 && high < 0x1_0000_0000 && high * 0x1_0000_0000 + low == 8 * n
  }

  /** h is the digest of a message that is not too long. */
  ghost predicate Hashed(h: Hash, m: seq<byte>) {
    8 * |m| < 0x1_0000_0000_0000_0000 && h == Sha1(m)
  }

  lemma AreHashed(m: seq<byte>)
    requires 8 * |m| < 0x1_0000_0000_0000_0000
    ensures Hashed(Blocks(Pad(m)), m)
  {
    hide Blocks, Pad;
  }

  lemma Padded(m: seq<byte>, p: seq<byte>)
    requires 8 * |m| < 0x1_0000_0000_0000_0000
    requires p == Marked(m, Fill(|m| % 64))
    ensures p + LengthField(8 * |m|) == Pad(m)
  {
    hide LengthField, Fill, Marked;
  }

  lemma BitCount(high: nat, low: nat, n: nat)
    requires Counts(high, low, n)
    ensures 8 * n < 0x1_0000_0000_0000_0000
  {
  }

  lemma Remainder(n: nat, i: nat)
    requires i <= n && (n - i) % 64 == 0
    ensures i < 64 ==> n % 64 == i
  {
  }

  lemma ZerosAppend(a: nat, b: nat)
    ensures Zeros(a) + Zeros(b) == Zeros(a + b)
  {
  }

  /** The octets of the 64-bit length are those of its two words. */
  lemma LengthOctets(high: nat, low: nat)
    requires low < 0x1_0000_0000 && high < 0x1_0000_0000
    ensures high * 0x1_0000_0000 + low < 0x1_0000_0000_0000_0000
    ensures LengthField(high * 0x1_0000_0000 + low) ==
            [high / 0x100_0000 % 256, high / 0x1_0000 % 256, high / 0x100 % 256, high % 256,
             low / 0x100_0000 % 256, low / 0x1_0000 % 256, low / 0x100 % 256, low % 256]
  {
    var v := high * 0x1_0000_0000 + low;
    OctetLow(high, low);
    OctetHigh(high);
  }

  lemma OctetHigh(n: nat)
    ensures Octet(n, 0) == n % 256 && Octet(n, 1) == n / 0x100 % 256
    ensures Octet(n, 2) == n / 0x1_0000 % 256 && Octet(n, 3) == n / 0x100_0000 % 256
  {
    assert n / 256 / 256 == n / 0x1_0000;
    assert n / 0x1_0000 / 256 == n / 0x100_0000;
    assert Octet(n, 2) == Octet(n / 256 / 256, 0);
    assert Octet(n, 3) == Octet(n / 256 / 256, 1);
  }

  lemma OctetLow(high: nat, low: nat)
    requires low < 0x1_0000_0000
    ensures var v := high * 0x1_0000_0000 + low;
            && Octet(v, 0) == low % 256 && Octet(v, 1) == low / 0x100 % 256
            && Octet(v, 2) == low / 0x1_0000 % 256 && Octet(v, 3) == low / 0x100_0000 % 256
            && forall i: nat :: Octet(v, i + 4) == Octet(high, i)
  {
    hide Octet;
    var v := high * 0x1_0000_0000 + low;
    var l1 := low / 256;
    var l2 := l1 / 256;
    var l3 := l2 / 256;
    Quarters(low);
    LastOctet(high * 0x100_0000, low);
    LastOctet(high * 0x1_0000, l1);
    LastOctet(high * 0x100, l2);
    LastOctet(high, l3);
    OctetHigh(v);
    OctetDeep(v, high * 0x100_0000 + l1, high * 0x1_0000 + l2, high * 0x100 + l3);
    OctetShift(high, v, high * 0x100_0000 + l1, high * 0x1_0000 + l2, high * 0x100 + l3);
  }

  lemma Quarters(low: nat)
    requires low < 0x1_0000_0000
    ensures low / 256 / 256 == low / 0x1_0000 && low / 256 / 256 / 256 == low / 0x100_0000
    ensures low / 256 / 256 / 256 / 256 == 0
  {
  }

  lemma LastOctet(h: nat, x: nat)
    ensures (h * 256 + x) % 256 == x % 256 && (h * 256 + x) / 256 == h + x / 256
  {
  }

  lemma OctetDeep(v: nat, v1: nat, v2: nat, v3: nat)
    requires v1 == v / 256 && v2 == v1 / 256 && v3 == v2 / 256
    ensures Octet(v, 0) == v % 256 && Octet(v, 1) == v1 % 256 && Octet(v, 2) == v2 % 256 && Octet(v, 3) == v3 % 256
  {
    OctetStep(v, 0);
    OctetStep(v1, 0);
    OctetStep(v2, 0);
  }

  lemma OctetStep(n: nat, i: nat)
    ensures Octet(n, 0) == n % 256 && Octet(n, i + 1) == Octet(n / 256, i)
    ensures forall j: nat :: Octet(n, j + 1) == Octet(n / 256, j)
  {
  }

  lemma OctetShift(high: nat, v: nat, v1: nat, v2: nat, v3: nat)
    requires v1 == v / 256 && v2 == v1 / 256 && v3 == v2 / 256 && high == v3 / 256
    ensures forall i: nat :: Octet(v, i + 4) == Octet(high, i)
  {
    forall i: nat
      ensures Octet(v, i + 4) == Octet(high, i)
    {
      assert Octet(v, i + 4) == Octet(v1, i + 3);
      assert Octet(v1, i + 3) == Octet(v2, i + 2);
      assert Octet(v2, i + 2) == Octet(v3, i + 1);
    }
  }
}
