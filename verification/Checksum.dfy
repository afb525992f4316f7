/** The Internet checksum of the router (section 1 of RFC 1071), its use in the IP headers the
    router builds, and the check the router makes on the headers it receives. */
module Checksum {
  import opened Bytes

  const WORD := 0x1_0000
  const UINT32 := 0x1_0000_0000

  /** The sum of the 16-bit big-endian words of data, an odd last octet padded with zero, over
      unbounded integers. */
  function WordSum(data: seq<byte>): (s: nat)
    ensures s <= (|data| + 1) / 2 * 0xffff
  {
    if |data| == 0 then 0
    else if |data| == 1 then data[0] * 256
    else data[0] * 256 + data[1] + WordSum(data[2..])
  }

  /** Words are added up, whatever is in front of them. */
  lemma {:induction false} WordSumAppend(a: seq<byte>, b: seq<byte>)
    requires |a| % 2 == 0
    ensures WordSum(a + b) == WordSum(a) + WordSum(b)
    decreases |a|
  {
    if a == [] {
      assert a + b == b;
    } else {
      WordSumAppend(a[2..], b);
      assert (a + b)[2..] == a[2..] + b;
    }
  }

  /** Every octet counts, those at even offsets 256 times. */
  lemma {:induction false} WordSumIs(data: seq<byte>)
    ensures WordSum(data) == Weighed(data, 0)
  {
    WordSumFrom(data, 0);
    assert data[0..] == data;
  }

  /** The octets from offset k on, each times its weight in a 16-bit word. */
  function Weighed(data: seq<byte>, k: nat): (s: nat)
    decreases |data| - k
  {
    if k >= |data| then 0 else data[k] as int * (if k % 2 == 0 then 256 else 1) + Weighed(data, k + 1)
  }

  lemma {:induction false} WordSumFrom(data: seq<byte>, k: nat)
    requires k <= |data| && k % 2 == 0
    ensures WordSum(data[k..]) == Weighed(data, k)
    decreases |data| - k
  {
    if k + 1 < |data| {
      WordSumFrom(data, k + 2);
      assert data[k..][2..] == data[k + 2..];
    }
  }

  /** An odd last octet counts as the high half of a word whose low half is zero. */
  lemma OddOctetIsPadded(data: seq<byte>)
    requires |data| % 2 == 1
    ensures WordSum(data + [0]) == WordSum(data)
  {
    hide WordSum;
    var front, last := data[..|data| - 1], data[|data| - 1];
    assert data == front + [last] && data + [0] == front + [last, 0];
    WordSumAppend(front, [last]);
    WordSumAppend(front, [last, 0]);
    LastWord(last);
  }

  lemma LastWord(b: byte)
    ensures WordSum([b, 0]) == WordSum([b])
  {
    assert [b, 0][2..] == [];
  }

  /** One's-complement folding: carries out of the low 16 bits are added back in. */
  function Fold(s: nat): (r: nat)
    decreases s
  {
    if s <= 0xffff then s else Fold(s / WORD + s % WORD)
  }

  /** Folding keeps the residue modulo 65535, and only zero folds to zero. */
  lemma {:induction false} FoldResidue(s: nat)
    ensures Fold(s) <= 0xffff
    ensures Fold(s) % 0xffff == s % 0xffff
    ensures Fold(s) == 0 <==> s == 0
    decreases s
  {
    if s > 0xffff {
      var t := s / WORD + s % WORD;
      assert s == t + (s / WORD) * 0xffff;
      ResidueOfSum(t, s / WORD);
      FoldResidue(t);
    }
  }

  lemma ResidueOfSum(t: int, k: int)
    ensures (t + k * 0xffff) % 0xffff == t % 0xffff
  {
  }

  /** The header with its 16-bit field at offset k set to v, most significant octet first. */
  function PutField(data: seq<byte>, k: nat, v: nat): (r: seq<byte>)
    requires k + 1 < |data| && v < WORD
    ensures |r| == |data|
  {
    data[k := v / 256][k + 1 := v % 256]
  }

  /** The value of the 16-bit field at offset k. */
  function Field(data: seq<byte>, k: nat): (v: nat)
    requires k + 1 < |data|
    ensures v < WORD
  {
    data[k] as int * 256 + data[k + 1]
  }

  /** An aligned field contributes its own value to the word sum. */
  lemma {:induction false} WordSumPut(data: seq<byte>, k: nat, v: nat)
    requires k % 2 == 0 && k + 1 < |data| && v < WORD
    ensures WordSum(PutField(data, k, v)) == WordSum(data) - Field(data, k) + v
  {
    var put := PutField(data, k, v);
    if k == 0 {
      assert put[2..] == data[2..];
    } else {
      WordSumPut(data[2..], k - 2, v);
      assert put[2..] == PutField(data[2..], k - 2, v);
    }
  }

  /** What the checksum routine returns, in network byte order: the complement of the folded
      32-bit sum, with 0xffff standing in for zero. */
  function ChecksumOf(data: seq<byte>): (c: nat)
    ensures c < WORD
  {
    FoldResidue(WordSum(data) % UINT32);
    var c := 0xffff - Fold(WordSum(data) % UINT32);
    if c == 0 then 0xffff else c
  }

  lemma AddWrapped(a: nat, b: nat)
    ensures (a % UINT32 + b) % UINT32 == (a + b) % UINT32
  {
  }

  /** What a 32-bit register holding sum ends with once data is added word by word. */
  function Accumulate(sum: nat, data: seq<byte>): (r: nat)
    requires sum < UINT32
    decreases |data|
  {
    if |data| == 0 then sum
    else if |data| == 1 then (sum + data[0] as int * 256) % UINT32
    else Accumulate((sum + data[0] as int * 256 + data[1]) % UINT32, data[2..])
  }

  lemma {:induction false} AccumulateIsWordSum(sum: nat, data: seq<byte>)
    requires sum < UINT32
    ensures Accumulate(sum, data) == (sum + WordSum(data)) % UINT32
    decreases |data|
  {
    if |data| >= 2 {
      var next := sum + data[0] as int * 256 + data[1];
      AccumulateIsWordSum(next % UINT32, data[2..]);
      AddWrapped(next, WordSum(data[2..]));
    }
  }

  /** The routine itself: accumulate words in a 32-bit register, fold the carries, complement.
      The result is never zero and, as long as the register did not overflow, cancels the data. */
  method Cksum(data: seq<byte>) returns (r: nat)
    ensures r == ChecksumOf(data)
    ensures 1 <= r <= 0xffff
    ensures (WordSum(data) % UINT32 + r) % 0xffff == 0
  {
    var sum: nat := 0;
    var at, len := 0, |data|;
    while len >= 2
      invariant len == |data| - at && 0 <= at <= |data|
      invariant sum < UINT32
      invariant Accumulate(sum, data[at..]) == Accumulate(0, data)
    {
      assert data[at..][2..] == data[at + 2..];
      sum := (sum + data[at] as int * 256 + data[at + 1]) % UINT32;
      at, len := at + 2, len - 2;
    }
    if len > 0 {
      sum := (sum + data[at] as int * 256) % UINT32;
    }
    AccumulateIsWordSum(0, data);
    ghost var total := sum;
    while sum > 0xffff
      invariant Fold(sum) == Fold(total)
      decreases sum
    {
      sum := sum / WORD + sum % WORD;
    }
    r := 0xffff - sum;
    r := if r == 0 then 0xffff else r;
    assert sum == Fold(total);
    ChecksumResidue(data);
  }

  lemma ChecksumResidue(data: seq<byte>)
    ensures ChecksumOf(data) >= 1
    ensures (WordSum(data) % UINT32 + ChecksumOf(data)) % 0xffff == 0
  {
    var s := WordSum(data) % UINT32;
    FoldResidue(s);
    var f := Fold(s);
    assert s == f + (s / 0xffff - f / 0xffff) * 0xffff;
    assert (f + ChecksumOf(data)) % 0xffff == 0;
    ResidueOfSum(f + ChecksumOf(data), s / 0xffff - f / 0xffff);
  }

  /** The receiver's test of RFC 1071: the one's-complement sum of everything is 0xffff. */
  predicate Verifies(data: seq<byte>) {
    Fold(WordSum(data)) == 0xffff
  }

  lemma VerifiesMeans(data: seq<byte>)
    ensures Verifies(data) <==> WordSum(data) > 0 && WordSum(data) % 0xffff == 0
  {
    FoldResidue(WordSum(data));
  }

  lemma WrapDecides(w: nat, c: nat)
    requires w <= 0x4000_0000 * 0xffff
    requires 1 <= c && (w % UINT32 + c) % 0xffff == 0
    ensures (w + c) % 0xffff == 0 <==> w < UINT32
  {
  }

  lemma ResidueDecides(data: seq<byte>)
    requires WordSum(data) <= 0x4000_0000 * 0xffff
    ensures ChecksumOf(data) >= 1
    ensures (WordSum(data) + ChecksumOf(data)) % 0xffff == 0 <==> WordSum(data) < UINT32
  {
    ChecksumResidue(data);
    WrapDecides(WordSum(data), ChecksumOf(data));
  }

  lemma WordSumBound(data: seq<byte>)
    requires |data| < 0x8000_0000
    ensures WordSum(data) <= 0x4000_0000 * 0xffff
  {
  }

  lemma VerifiesByResidue(data: seq<byte>, k: nat, v: nat)
    requires k % 2 == 0 && k + 1 < |data| && v < WORD && Field(data, k) == 0
    ensures Verifies(PutField(data, k, v)) <==> WordSum(data) + v > 0 && (WordSum(data) + v) % 0xffff == 0
  {
    WordSumPut(data, k, v);
    VerifiesMeans(PutField(data, k, v));
  }

  /** Writing the checksum into its zeroed, aligned field makes the data verify exactly when the
      32-bit accumulator did not wrap. len is an int, so data holds fewer than 2^31 octets. */
  lemma ChecksumVerifiesExactly(data: seq<byte>, k: nat)
    requires |data| < 0x8000_0000
    requires k % 2 == 0 && k + 1 < |data| && Field(data, k) == 0
    ensures Verifies(PutField(data, k, ChecksumOf(data))) <==> WordSum(data) < UINT32
  {
    VerifiesByResidue(data, k, ChecksumOf(data));
    WordSumBound(data);
    ResidueDecides(data);
  }

  /** Up to 65537 words always fit the accumulator, so the checksum always verifies. */
  lemma ChecksumVerifies(data: seq<byte>, k: nat)
    requires |data| <= 2 * 65537
    requires k % 2 == 0 && k + 1 < |data| && Field(data, k) == 0
    ensures Verifies(PutField(data, k, ChecksumOf(data)))
  {
    hide WordSum, Verifies, ChecksumOf, PutField, Field;
    ChecksumVerifiesExactly(data, k);
  }

  /** 65538 words of all ones (two of them the field) do overflow the accumulator. */
  lemma {:induction false} OnesSum(n: nat)
    ensures WordSum(seq(2 * n, _ => 0xff)) == n * 0xffff
  {
    var s: seq<byte> := seq(2 * n, _ => 0xff);
    if n > 0 {
      OnesSum(n - 1);
      assert s[2..] == seq(2 * (n - 1), _ => 0xff);
    }
  }

  lemma LongDataDefeatsChecksum()
    ensures var data: seq<byte> := [0, 0] + seq(2 * 65538, _ => 0xff);
            !Verifies(PutField(data, 0, ChecksumOf(data)))
  {
    var ones: seq<byte> := seq(2 * 65538, _ => 0xff);
    OnesSum(65538);
    var data := [0, 0] + ones;
    assert data[2..] == ones;
    ChecksumVerifiesExactly(data, 0);
  }

  const IP_HEADER := 20
  const SUM_OFFSET := 10

  /** The address and identification fields are copied as they lie in memory. */
  datatype IpFields = IpFields(tos: byte, ttl: byte, protocol: byte, id: seq<byte>, src: seq<byte>, dst: seq<byte>) {
    predicate Valid() {
      |id| == 2 && |src| == 4 && |dst| == 4
    }
  }

  /** The 20 octets of the header before its checksum is filled in: version 4, header length 5,
      total length truncated to 16 bits, no fragmentation, checksum zero. */
  function BlankHeader(f: IpFields, payload: nat): (h: seq<byte>)
    requires f.Valid()
    ensures |h| == IP_HEADER && Field(h, SUM_OFFSET) == 0
  {
    var total := (IP_HEADER + payload) % WORD;
    [0x45, f.tos, total / 256, total % 256] + f.id + [0, 0, f.ttl, f.protocol, 0, 0] + f.src + f.dst
  }

  lemma BlankFields(f: IpFields, payload: nat)
    requires f.Valid()
    ensures var h := BlankHeader(f, payload);
            && h[0] == 0x45 && h[1] == f.tos && Field(h, 2) == (IP_HEADER + payload) % WORD && h[4..6] == f.id
            && Field(h, 6) == 0 && h[8] == f.ttl && h[9] == f.protocol && h[12..16] == f.src && h[16..20] == f.dst
  {
  }

  /** Every packet the router builds carries a header that verifies, followed by its payload. */
  method MakeIpPacket(f: IpFields, data: seq<byte>) returns (packet: seq<byte>)
    requires f.Valid()
    ensures |packet| == IP_HEADER + |data| && packet[IP_HEADER..] == data
    ensures Verifies(packet[..IP_HEADER]) && Accepts(packet[..IP_HEADER])
    ensures packet[..IP_HEADER] == PutField(BlankHeader(f, |data|), SUM_OFFSET, ChecksumOf(BlankHeader(f, |data|)))
    ensures packet[0] / 16 == 4 && packet[0] % 16 * 4 == IP_HEADER && packet[1] == f.tos
    ensures Field(packet, 2) == |packet| % WORD && packet[4..6] == f.id && Field(packet, 6) == 0
    ensures packet[8] == f.ttl && packet[9] == f.protocol && packet[12..16] == f.src && packet[16..20] == f.dst
  {
    var blank := BlankHeader(f, |data|);
    var c := Cksum(blank);
    var header := PutField(blank, SUM_OFFSET, c);
    ChecksumVerifies(blank, SUM_OFFSET);
    packet := header + data;
    assert packet[..IP_HEADER] == header;
    BlankFields(f, |data|);
    assert forall k :: 0 <= k < IP_HEADER && k != SUM_OFFSET && k != SUM_OFFSET + 1 ==> packet[k] == blank[k];
    assert packet[4..6] == blank[4..6] && packet[12..16] == blank[12..16] && packet[16..20] == blank[16..20];
    AcceptsExactly(header);
  }

  /** The router's own test on arrival: recompute the checksum over the header with the field
      zeroed and compare it with the field. */
  predicate Accepts(h: seq<byte>)
    requires |h| == IP_HEADER
  {
    ChecksumOf(PutField(h, SUM_OFFSET, 0)) == Field(h, SUM_OFFSET)
  }

  /** The router accepts exactly the headers that verify and do not use the all-zero form of the
      checksum; RFC 1071 allows that form, the router never accepts it. */
  lemma AcceptsExactly(h: seq<byte>)
    requires |h| == IP_HEADER
    ensures Accepts(h) <==> Verifies(h) && Field(h, SUM_OFFSET) != 0
  {
    hide WordSum, Verifies, ChecksumOf;
    var blank, v := PutField(h, SUM_OFFSET, 0), Field(h, SUM_OFFSET);
    WordSumPut(h, SUM_OFFSET, 0);
    VerifiesMeans(h);
    ChecksumResidue(blank);
    ComplementUnique(WordSum(blank), ChecksumOf(blank), v);
  }

  lemma ComplementUnique(w: nat, c: nat, v: nat)
    requires 1 <= c <= 0xffff && v <= 0xffff && (w + c) % 0xffff == 0
    ensures c == v <==> v != 0 && w + v > 0 && (w + v) % 0xffff == 0
  {
  }
}
