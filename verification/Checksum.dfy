/** The one's-complement checksum of IP, UDP and TCP (RFC 1071, RFC 791, RFC 768). */
module Checksum {
  import opened Machine

  /** The sum of the little-endian 16-bit words of a buffer; an odd last byte is a word's low byte. */
  function WordSum(data: seq<Byte>): nat {
    if |data| == 0 then 0
    else if |data| == 1 then data[0]
    else WordAtFront(data) + WordSum(data[2..])
  }

  /** A u16 load from the front. */
  function WordAtFront(data: seq<Byte>): U16
    requires |data| >= 2
  {
    var lo: int, hi: int := data[0], data[1];
    lo + 0x100 * hi
  }

  /** The residue the fold loop reaches: congruent modulo 65535, and 0 only for 0. */
  function Fold(sum: nat): U16 {
    if sum == 0 then 0 else (sum - 1) % 0xffff + 1
  }

  /** The checksum of a word sum: the complement of the folded residue. */
  function Complement(x: U16): U16 {
    0xffff - x
  }

  lemma FoldStep(sum: nat)
    requires sum >= 0x1_0000
    ensures 0 < sum % 0x1_0000 + sum / 0x1_0000 < sum
    ensures Fold(sum % 0x1_0000 + sum / 0x1_0000) == Fold(sum)
  {
    var q, r := sum / 0x1_0000, sum % 0x1_0000;
    assert sum == 0xffff * q + (r + q);
    ModShift(r + q - 1, q);
  }

  lemma ModShift(x: nat, q: nat)
    ensures (x + 0xffff * q) % 0xffff == x % 0xffff
  {
  }

  lemma FoldUnique(sum: nat, r: U16)
    requires r == 0 <==> sum == 0
    requires sum % 0xffff == r % 0xffff
    ensures Fold(sum) == r
  {
  }

  lemma FoldOf(sum: nat)
    ensures Fold(sum) == 0 <==> sum == 0
    ensures Fold(sum) % 0xffff == sum % 0xffff
  {
  }

  /** The loop `while (sum >> 16)`. */
  method FoldSum(s: U32) returns (r: U16)
    ensures r == Fold(s)
  {
    var sum := s;
    while sum >= 0x1_0000
      invariant Fold(sum) == Fold(s)
      decreases sum
    {
      FoldStep(sum);
      sum := sum % 0x1_0000 + sum / 0x1_0000;
    }
    r := sum;
  }

  lemma {:induction false} WordSumAppend(a: seq<Byte>, b: seq<Byte>)
    requires |a| % 2 == 0
    ensures WordSum(a + b) == WordSum(a) + WordSum(b)
  {
    if a == [] {
      assert a + b == b;
    } else {
      assert (a + b)[2..] == a[2..] + b;
      WordSumAppend(a[2..], b);
    }
  }

  /** At most 65535 for every pair of bytes begun. */
  lemma {:induction false} WordSumBound(data: seq<Byte>)
    ensures 2 * WordSum(data) <= 0xffff * |data| + 0xffff
  {
    if |data| >= 2 {
      WordSumBound(data[2..]);
    }
  }

  /** The loop over words shared by both checksum functions: u32 additions that never wrap for
      lengths a u16 can hold. */
  method SumWords(start: U32, data: seq<Byte>) returns (sum: U32)
    requires |data| <= 0xffff && start <= 0x8_0000
    ensures sum == start + WordSum(data)
  {
    sum := start;
    WordSumBound(data);
    var i := 0;
    while i < |data| / 2
      invariant 0 <= i <= |data| / 2
      invariant sum + WordSum(data[2 * i..]) == start + WordSum(data)
    {
      assert data[2 * i..][2..] == data[2 * (i + 1)..];
      sum := (sum + WordAtFront(data[2 * i..])) % 0x1_0000_0000;
      i := i + 1;
    }
    if |data| % 2 == 1 {
      assert data[2 * i..] == [data[|data| - 1]];
      sum := (sum + data[|data| - 1]) % 0x1_0000_0000;
    }
  }

  /** ip_checksum, for every length its callers pass. */
  method IpChecksum(data: seq<Byte>) returns (c: U16)
    requires |data| <= 0xffff
    ensures c == Complement(Fold(WordSum(data)))
  {
    var sum := SumWords(0, data);
    var folded := FoldSum(sum);
    c := Complement(folded);
  }

  // ---------- The pseudo header ----------

  function Bswap16(v: U16): U16 {
    v / 0x100 + 0x100 * (v % 0x100)
  }

  /** The bytes RFC 768 and RFC 9293 prepend: both addresses, zero, protocol, length. */
  function PseudoHeader(src: U32, dst: U32, proto: Byte, len: U16): (h: seq<Byte>)
    ensures |h| == 12
  {
    LE32(src) + LE32(dst) + [0, proto, len / 0x100, len % 0x100]
  }

  lemma PseudoHeaderSum(src: U32, dst: U32, proto: Byte, len: U16)
    ensures WordSum(PseudoHeader(src, dst, proto, len)) ==
      src / 0x1_0000 + src % 0x1_0000 + (dst / 0x1_0000 + dst % 0x1_0000) + Bswap16(proto) + Bswap16(len)
  {
    AddressSum(src);
    AddressSum(dst);
    WordSumAppend(LE32(src) + LE32(dst), [0, proto, len / 0x100, len % 0x100]);
    WordSumAppend(LE32(src), LE32(dst));
    FourBytes(0, proto, len / 0x100, len % 0x100);
  }

  lemma TwoBytes(a: Byte, b: Byte)
    ensures WordSum([a, b]) == WordAtFront([a, b])
  {
    assert [a, b][2..] == [];
  }

  lemma FourBytes(a: Byte, b: Byte, c: Byte, d: Byte)
    ensures WordSum([a, b, c, d]) == WordAtFront([a, b]) + WordAtFront([c, d])
  {
    TwoBytes(a, b);
    TwoBytes(c, d);
    WordSumAppend([a, b], [c, d]);
    assert [a, b] + [c, d] == [a, b, c, d];
  }

  /** The bytes of a u32 are those of its two halves. */
  lemma HalvesBytes(hi: U16, lo: U16)
    ensures var a := 0x1_0000 * hi + lo;
      && a % 0x100 == lo % 0x100 && a / 0x100 % 0x100 == lo / 0x100
      && a / 0x1_0000 % 0x100 == hi % 0x100 && a / 0x100_0000 == hi / 0x100
  {
    var a := 0x1_0000 * hi + lo;
    QuotientOf(0x100 * hi, lo);
    assert a / 0x1_0000 == hi;
    QuotientOf(0, hi);
  }

  lemma QuotientOf(q: nat, lo: U16)
    ensures (0x100 * q + lo) / 0x100 == q + lo / 0x100 && (0x100 * q + lo) % 0x100 == lo % 0x100
  {
  }

  lemma HalfWord(x: U16)
    ensures WordAtFront([x % 0x100, x / 0x100]) == x
  {
  }

  lemma AddressSum(a: U32)
    ensures WordSum(LE32(a)) == a / 0x1_0000 + a % 0x1_0000
  {
    hide WordSum, WordAtFront;
    var hi, lo := a / 0x1_0000, a % 0x1_0000;
    HalvesBytes(hi, lo);
    HalfWord(hi);
    HalfWord(lo);
    FourBytes(lo % 0x100, lo / 0x100, hi % 0x100, hi / 0x100);
    assert LE32(a) == [lo % 0x100, lo / 0x100, hi % 0x100, hi / 0x100];
  }

  /** transport_checksum: the checksum of the pseudo header followed by the data. */
  method TransportChecksum(src: U32, dst: U32, proto: Byte, data: seq<Byte>) returns (c: U16)
    requires |data| <= 0xffff
    ensures c == Complement(Fold(WordSum(PseudoHeader(src, dst, proto, |data|) + data)))
  {
    var sum: U32 := src / 0x1_0000 + src % 0x1_0000;
    sum := sum + (dst / 0x1_0000 + dst % 0x1_0000);
    sum := sum + Bswap16(proto);
    sum := sum + Bswap16(|data|);
    PseudoHeaderSum(src, dst, proto, |data|);
    WordSumAppend(PseudoHeader(src, dst, proto, |data|), data);
    sum := SumWords(sum, data);
    var folded := FoldSum(sum);
    c := Complement(folded);
  }

  // ---------- Verification ----------

  /** The packet with checksum c stored at even offset k. */
  function Stored(data: seq<Byte>, k: nat, c: U16): (r: seq<Byte>)
    requires k + 2 <= |data|
    ensures |r| == |data|
  {
    data[..k] + [c % 0x100, c / 0x100] + data[k + 2..]
  }

  lemma StoredSum(data: seq<Byte>, k: nat, c: U16)
    requires k % 2 == 0 && k + 2 <= |data| && data[k] == data[k + 1] == 0
    ensures WordSum(Stored(data, k, c)) == WordSum(data) + c
  {
    hide WordSum, WordAtFront;
    AroundSum(data[..k], [c % 0x100, c / 0x100], data[k + 2..]);
    AroundSum(data[..k], [0, 0], data[k + 2..]);
    assert data == data[..k] + [0, 0] + data[k + 2..];
    TwoBytes(c % 0x100, c / 0x100);
    TwoBytes(0, 0);
    FieldValue(c);
  }

  lemma FieldValue(c: U16)
    ensures WordAtFront([c % 0x100, c / 0x100]) == c && WordAtFront([0, 0]) == 0
  {
  }

  lemma AroundSum(a: seq<Byte>, field: seq<Byte>, b: seq<Byte>)
    requires |a| % 2 == 0 && |field| == 2
    ensures WordSum(a + field + b) == WordSum(a) + WordSum(field) + WordSum(b)
  {
    hide WordSum;
    WordSumAppend(a + field, b);
    WordSumAppend(a, field);
  }

  /** A receiver recomputing over the packet gets 0. */
  predicate Verifies(packet: seq<Byte>) {
    Complement(Fold(WordSum(packet))) == 0
  }

  /** The value UDP puts on the wire: 0 is replaced by 0xffff. */
  function UdpForm(c: U16): U16 {
    if c == 0 then 0xffff else c
  }

  /** A packet verifies exactly when the stored field is its checksum modulo 65535: the
      checksum itself, UDP's 0xffff for 0, or 0 for 0xffff unless all else is zero. */
  lemma VerifiesIff(data: seq<Byte>, k: nat, c: U16)
    requires k % 2 == 0 && k + 2 <= |data| && data[k] == data[k + 1] == 0
    ensures Verifies(Stored(data, k, c)) <==>
      c % 0xffff == Complement(Fold(WordSum(data))) % 0xffff && (WordSum(data) > 0 || c > 0)
  {
    hide WordSum, Stored, Fold;
    StoredSum(data, k, c);
    FoldsToOnes(WordSum(data), c);
  }

  lemma FoldsToOnes(s: nat, c: U16)
    ensures Fold(s + c) == 0xffff <==> c % 0xffff == (0xffff - Fold(s)) % 0xffff && (s > 0 || c > 0)
  {
    hide Fold;
    FullResidue(s + c);
    ComplementResidue(s, c);
  }

  lemma FullResidue(sum: nat)
    ensures Fold(sum) == 0xffff <==> sum > 0 && sum % 0xffff == 0
  {
  }

  lemma ComplementResidue(s: nat, c: U16)
    ensures (s + c) % 0xffff == 0 <==> c % 0xffff == (0xffff - Fold(s)) % 0xffff
  {
    hide Fold;
    var f := Fold(s);
    FoldOf(s);
    ModAdd(s, f, c);
    HalfComplement(f, c);
  }

  lemma HalfComplement(f: U16, c: U16)
    ensures (f + c) % 0xffff == 0 <==> c % 0xffff == (0xffff - f) % 0xffff
  {
    assert f + c < 0x2_0000;
  }

  lemma ModAdd(a: nat, b: nat, c: nat)
    requires a % 0xffff == b % 0xffff
    ensures (a + c) % 0xffff == (b + c) % 0xffff
  {
    ModShift(a % 0xffff + c, a / 0xffff);
    ModShift(b % 0xffff + c, b / 0xffff);
  }

  /** Storing the computed checksum, in IP's form or in UDP's, always verifies. */
  lemma ChecksumVerifies(data: seq<Byte>, k: nat)
    requires k % 2 == 0 && k + 2 <= |data| && data[k] == data[k + 1] == 0
    ensures var c := Complement(Fold(WordSum(data)));
      Verifies(Stored(data, k, c)) && Verifies(Stored(data, k, UdpForm(c)))
  {
    hide WordSum, Stored, Verifies, Fold;
    var c := Complement(Fold(WordSum(data)));
    FoldOf(WordSum(data));
    VerifiesIff(data, k, c);
    VerifiesIff(data, k, UdpForm(c));
  }

  // ---------- Byte order ----------

  /** The big-endian words of section 3.1 of RFC 791: an odd last byte is a word's high byte. */
  function BigEndianSum(data: seq<Byte>): nat {
    if |data| == 0 then 0
    else if |data| == 1 then 0x100 * data[0]
    else 0x100 * data[0] + data[1] + BigEndianSum(data[2..])
  }

  lemma {:induction false} SumsCongruent(data: seq<Byte>)
    ensures WordSum(data) % 0xffff == (0x100 * BigEndianSum(data)) % 0xffff
    ensures WordSum(data) == 0 <==> BigEndianSum(data) == 0
  {
    if |data| == 1 {
      var d: int := data[0];
      assert 0x100 * (0x100 * d) == d + 0xffff * d;
      ModShift(d, d);
    } else if |data| >= 2 {
      SumsCongruent(data[2..]);
      var hi: int, lo: int := data[0], data[1];
      var rest := BigEndianSum(data[2..]);
      assert 0x100 * (0x100 * hi + lo + rest) == (hi + 0x100 * lo + 0x100 * rest) + 0xffff * hi;
      ModShift(hi + 0x100 * lo + 0x100 * rest, hi);
      ModAdd(WordSum(data[2..]), 0x100 * rest, hi + 0x100 * lo);
    }
  }

  lemma SwapResidue(v: U16)
    ensures Bswap16(v) % 0xffff == (0x100 * v) % 0xffff
    ensures Bswap16(v) == 0 <==> v == 0
    ensures Bswap16(Complement(v)) == Complement(Bswap16(v))
  {
    assert 0x100 * v == Bswap16(v) + 0xffff * (v / 0x100);
    ModShift(Bswap16(v), v / 0x100);
  }

  /** The little-endian computation stores, low byte first, exactly the two bytes the
      big-endian definition sends high byte first. */
  lemma ByteOrderIndependent(data: seq<Byte>)
    ensures var le := Complement(Fold(WordSum(data)));
      var be := Complement(Fold(BigEndianSum(data)));
      [le % 0x100, le / 0x100] == [be / 0x100, be % 0x100]
  {
    hide WordSum, BigEndianSum, Fold, Bswap16, Complement;
    var b := Fold(BigEndianSum(data));
    SwapBytes(Complement(b));
    SumsCongruent(data);
    FoldOf(BigEndianSum(data));
    SwapResidue(b);
    SwapResidue(Complement(b));
    ModTimes(BigEndianSum(data), b);
    FoldUnique(WordSum(data), Bswap16(b));
  }

  lemma SwapBytes(v: U16)
    ensures Bswap16(v) % 0x100 == v / 0x100 && Bswap16(v) / 0x100 == v % 0x100
  {
  }

  lemma ModTimes(a: nat, b: nat)
    requires a % 0xffff == b % 0xffff
    ensures (0x100 * a) % 0xffff == (0x100 * b) % 0xffff
  {
    ModShift(0x100 * (a % 0xffff), 0x100 * (a / 0xffff));
    ModShift(0x100 * (b % 0xffff), 0x100 * (b / 0xffff));
  }

  /** net_send_udp's checksum part: the datagram it hands to IP verifies under its pseudo header. */
  method SealUdp(src: U32, dst: U32, header: seq<Byte>, data: seq<Byte>) returns (datagram: seq<Byte>)
    requires |header| == 8 && header[6] == header[7] == 0 && |data| <= 0xffff - 8
    ensures |datagram| == 8 + |data| && datagram[..6] == header[..6] && datagram[8..] == data
    ensures datagram[6..8] != [0, 0]
    ensures Verifies(PseudoHeader(src, dst, 17, |datagram|) + datagram)
  {
    var plain := header + data;
    var c := TransportChecksum(src, dst, 17, plain);
    if c == 0 {
      c := 0xffff;
    }
    datagram := Stored(plain, 6, c);
    ghost var pseudo := PseudoHeader(src, dst, 17, |plain|);
    ChecksumVerifies(pseudo + plain, 18);
    assert pseudo + datagram == Stored(pseudo + plain, 18, c);
  }
}
