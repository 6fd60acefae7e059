/** The internet checksums of dhcp.c and tapdrvr.c (RFC 1071). */
module Checksum {
  import opened Bytes

  const IPPROTO_UDP: uint16 := 17
  const IPPROTO_ICMPV6: uint16 := 58

  /** The sum of the 16-bit words of a byte string; an odd last byte is padded with a zero. */
  function WordSum(b: seq<byte>): nat {
    if |b| == 0 then 0
    else if |b| == 1 then b[0] as nat * 256
    else Word(b[0], b[1]) as nat + WordSum(b[2..])
  }

  /** The one's-complement 16-bit value of a sum: 0 only for 0, else the residue in 1..65535. */
  function Folded(sum: nat): (r: nat)
    ensures r < 0x1_0000 && r % 0xffff == sum % 0xffff
    ensures r == 0 <==> sum == 0
  {
    if sum == 0 then 0 else if sum % 0xffff == 0 then 0xffff else sum % 0xffff
  }

  /** Section 1 of RFC 1071: the one's complement of the one's-complement sum. */
  function InternetChecksum(b: seq<byte>): uint16 {
    (0xffff - Folded(WordSum(b))) as uint16
  }

  /** What a receiver checks: the one's-complement sum, checksum included, is all ones. */
  predicate Verifies(b: seq<byte>) {
    Folded(WordSum(b)) == 0xffff
  }

  /** An odd string is summed as if a zero byte followed. */
  lemma {:induction false} WordSumPadded(b: seq<byte>)
    requires |b| % 2 == 1
    ensures WordSum(b) == WordSum(b + [0])
  {
    if |b| == 1 {
      assert (b + [0])[2..] == [];
    } else {
      assert (b + [0])[2..] == b[2..] + [0];
      WordSumPadded(b[2..]);
    }
  }

  /** A string verifies exactly when its sum is a positive multiple of 65535. */
  lemma VerifiesExactlyWhen(b: seq<byte>)
    ensures Verifies(b) <==> WordSum(b) > 0 && WordSum(b) % 65535 == 0
  {
  }

  lemma {:induction false} WordSumBound(b: seq<byte>)
    ensures WordSum(b) <= 0xffff * ((|b| + 1) / 2)
  {
    if |b| <= 1 {
    } else {
      WordSumBound(b[2..]);
    }
  }

  lemma {:induction false} WordSumAppend(a: seq<byte>, b: seq<byte>)
    requires |a| % 2 == 0
    ensures WordSum(a + b) == WordSum(a) + WordSum(b)
  {
    if a == [] {
      assert a + b == b;
    } else {
      assert (a + b)[2..] == a[2..] + b;
      WordSumAppend(a[2..], b);
    }
  }

  /** The carry loop: it ends, and yields the one's-complement value of the sum. */
  method Fold(total: uint32) returns (r: uint16)
    ensures r as nat == Folded(total as nat)
  {
    var sum := total;
    while sum / 0x1_0000 != 0
      invariant sum as nat % 0xffff == total as nat % 0xffff
      invariant sum == 0 <==> total == 0
      decreases sum
    {
      FoldOnce(sum as nat);
      sum := sum % 0x1_0000 + sum / 0x1_0000;
    }
    r := sum as uint16;
  }

  /** 65536 is 1 modulo 65535, so adding the carry back keeps the residue. */
  lemma FoldOnce(s: nat)
    ensures (s % 0x1_0000 + s / 0x1_0000) % 0xffff == s % 0xffff
    ensures s >= 0x1_0000 ==> 0 < s % 0x1_0000 + s / 0x1_0000 < s
  {
    var hi, lo := s / 0x1_0000, s % 0x1_0000;
    assert s == lo + hi + 0xffff * hi;
    ResidueAdd(lo + hi, hi);
  }

  lemma ResidueAdd(a: nat, k: nat)
    ensures (a + 0xffff * k) % 0xffff == a % 0xffff
  {
    var q, r := a / 0xffff, a % 0xffff;
    assert a + 0xffff * k == 0xffff * (q + k) + r;
  }

  /** ip_checksum; the loop stops before an odd last byte. */
  method IpChecksum(buf: seq<byte>) returns (c: uint16)
    requires |buf| <= 0x2_0000
    ensures c == InternetChecksum(buf[..|buf| - |buf| % 2])
  {
    var sum: uint32 := 0;
    var i := 0;
    ghost var even := buf[..|buf| - |buf| % 2];
    WordSumBound(even);
    while i < |buf| - 1
      invariant 0 <= i <= |even| && i % 2 == 0
      invariant sum as nat + WordSum(even[i..]) == WordSum(even)
    {
      var word16 := Word(buf[i], buf[i + 1]);
      assert even[i..][2..] == even[i + 2..];
      sum := sum + word16 as uint32;
      i := i + 2;
    }
    var folded := Fold(sum);
    c := 0xffff - folded;
  }

  /** The summing loop of udp_checksum and icmpv6_checksum, from a start value. */
  method AddWords(buf: seq<byte>, start: uint32) returns (sum: uint32)
    requires |buf| <= 0xffff && start as nat + WordSum(buf) < 0x1_0000_0000
    ensures sum as nat == start as nat + WordSum(buf)
  {
    sum := start;
    var i := 0;
    while i < |buf|
      invariant 0 <= i <= |buf| + 1
      invariant sum as nat + WordSum(Rest(buf, i)) == start as nat + WordSum(buf)
    {
      assert |Rest(buf, i)| > 1 ==> Rest(buf, i)[2..] == Rest(buf, i + 2);
      var word16 := Word(buf[i], if i + 1 < |buf| then buf[i + 1] else 0);
      sum := sum + word16 as uint32;
      i := i + 2;
    }
  }

  /** The pseudo-header of RFC 768: addresses, protocol and length. */
  function UdpPseudoHeader(src: seq<byte>, dst: seq<byte>, len: uint16): (b: seq<byte>)
    ensures b == src + dst + [0, 17] + Be16(len)
  {
    src + dst + Be16(IPPROTO_UDP) + Be16(len)
  }

  /** Section 8.1 of RFC 2460: 32-bit length, three zero bytes, next header. */
  function Icmpv6PseudoHeader(src: seq<byte>, dst: seq<byte>, len: uint16): (b: seq<byte>)
    ensures b == src + dst + [0, 0] + Be16(len) + [0, 0, 0, 58]
  {
    src + dst + Be32(len as uint32) + Be32(IPPROTO_ICMPV6 as uint32)
  }

  lemma WordSumOfUdpPseudoHeader(src: seq<byte>, dst: seq<byte>, len: uint16, seg: seq<byte>)
    requires |src| == |dst| == 4
    ensures WordSum(UdpPseudoHeader(src, dst, len) + seg) ==
      WordSum(seg) + WordSum(src) + WordSum(dst) + IPPROTO_UDP as nat + len as nat
  {
    hide WordSum;
    WordSumAppend(src, dst);
    WordSumAppend(src + dst, Be16(IPPROTO_UDP));
    WordSumAppend(src + dst + Be16(IPPROTO_UDP), Be16(len));
    WordSumAppend(UdpPseudoHeader(src, dst, len), seg);
    WordSumOfBe16(IPPROTO_UDP);
    WordSumOfBe16(len);
  }

  lemma WordSumOfIcmpv6PseudoHeader(src: seq<byte>, dst: seq<byte>, len: uint16, seg: seq<byte>)
    requires |src| == |dst| == 16
    ensures WordSum(Icmpv6PseudoHeader(src, dst, len) + seg) ==
      WordSum(seg) + WordSum(src) + WordSum(dst) + IPPROTO_ICMPV6 as nat + len as nat
  {
    hide WordSum;
    WordSumAppend(src, dst);
    WordSumAppend(src + dst, Be32(len as uint32));
    WordSumAppend(src + dst + Be32(len as uint32), Be32(IPPROTO_ICMPV6 as uint32));
    WordSumAppend(Icmpv6PseudoHeader(src, dst, len), seg);
    WordSumAppend(Be16(0), Be16(len));
    WordSumAppend(Be16(0), Be16(IPPROTO_ICMPV6));
    WordSumOfBe16(0);
    WordSumOfBe16(len);
    WordSumOfBe16(IPPROTO_ICMPV6);
  }

  lemma WordSumOfBe16(w: uint16)
    ensures WordSum(Be16(w)) == w as nat
  {
    WordOfBe16(w);
    assert Be16(w)[2..] == [];
  }

  /** udp_checksum: the checksum of pseudo-header and segment, with no 32-bit overflow. */
  method UdpChecksum(buf: seq<byte>, src: seq<byte>, dst: seq<byte>) returns (c: uint16)
    requires |buf| <= 0xffff && |src| == |dst| == 4
    ensures c == InternetChecksum(UdpPseudoHeader(src, dst, |buf| as uint16) + buf)
  {
    WordSumBound(buf);
    WordSumBound(src);
    WordSumBound(dst);
    var sum := AddWords(buf, 0);
    sum := AddWords(src, sum);
    sum := AddWords(dst, sum);
    sum := sum + IPPROTO_UDP as uint32 + |buf| as uint32;
    var folded := Fold(sum);
    c := 0xffff - folded;
    WordSumOfUdpPseudoHeader(src, dst, |buf| as uint16, buf);
  }

  /** icmpv6_checksum: likewise, with the pseudo-header of IPv6. */
  method Icmpv6Checksum(buf: seq<byte>, src: seq<byte>, dst: seq<byte>) returns (c: uint16)
    requires |buf| <= 0xffff && |src| == |dst| == 16
    ensures c == InternetChecksum(Icmpv6PseudoHeader(src, dst, |buf| as uint16) + buf)
  {
    WordSumBound(buf);
    WordSumBound(src);
    WordSumBound(dst);
    var sum := AddWords(buf, 0);
    sum := AddWords(src, sum);
    sum := AddWords(dst, sum);
    sum := sum + IPPROTO_ICMPV6 as uint32 + |buf| as uint32;
    var folded := Fold(sum);
    c := 0xffff - folded;
    WordSumOfIcmpv6PseudoHeader(src, dst, |buf| as uint16, buf);
  }

  /** `b` with a 16-bit field set. */
  function Stored(b: seq<byte>, at: nat, c: uint16): (r: seq<byte>)
    requires at + 2 <= |b|
    ensures |r| == |b|
  {
    b[..at] + Be16(c) + b[at + 2..]
  }

  /** Storing the checksum in the zeroed field makes the receiver's sum all ones. */
  lemma StoredChecksumVerifies(b: seq<byte>, at: nat)
    requires at % 2 == 0 && at + 2 <= |b| && b[at] == b[at + 1] == 0
    ensures Verifies(Stored(b, at, InternetChecksum(b)))
  {
    hide WordSum;
    var c := InternetChecksum(b);
    WordSumOfField(b, at, c);
    WordSumOfField(b, at, 0);
    assert Stored(b, at, 0) == b;
    assert WordSum(Stored(b, at, c)) == WordSum(b) + (0xffff - Folded(WordSum(b)));
    ComplementFolds(WordSum(b));
  }

  lemma ComplementFolds(s: nat)
    ensures Folded(s + (0xffff - Folded(s))) == 0xffff
  {
    var q, r := s / 0xffff, s % 0xffff;
    assert s == 0xffff * q + r;
    if s > 0 {
      ResidueAdd(0, if r == 0 then q else q + 1);
      assert s + (0xffff - Folded(s)) == 0xffff * if r == 0 then q else q + 1;
    }
  }

  lemma WordSumOfField(b: seq<byte>, at: nat, c: uint16)
    requires at % 2 == 0 && at + 2 <= |b|
    ensures WordSum(Stored(b, at, c)) == WordSum(b[..at]) + c as nat + WordSum(b[at + 2..])
  {
    hide WordSum;
    WordSumAppend(b[..at], Be16(c));
    WordSumAppend(b[..at] + Be16(c), b[at + 2..]);
    WordSumOfBe16(c);
  }

  /**
   * What the check detects: when one field of a verified string is changed, it still verifies
   * exactly when the old and the new field are the same modulo 65535. In a string that is zero
   * elsewhere the zero field is detected as well, since no sum is then all ones.
   */
  lemma OneFieldChanged(b: seq<byte>, at: nat, old_: uint16, new_: uint16)
    requires at % 2 == 0 && at + 2 <= |b|
    requires Verifies(Stored(b, at, old_))
    ensures Verifies(Stored(b, at, new_)) <==>
      && old_ as nat % 0xffff == new_ as nat % 0xffff
      && (WordSum(b[..at]) + WordSum(b[at + 2..]) == 0 ==> new_ == 0xffff)
  {
    hide WordSum;
    WordSumOfField(b, at, old_);
    WordSumOfField(b, at, new_);
    SameResidue(WordSum(b[..at]) + WordSum(b[at + 2..]), old_ as nat, new_ as nat);
  }

  lemma SameResidue(s: nat, x: nat, y: nat)
    requires (s + x) % 0xffff == 0
    ensures (s + y) % 0xffff == 0 <==> x % 0xffff == y % 0xffff
  {
    var k := (s + x) / 0xffff;
    assert s + x == 0xffff * k;
    if (s + y) % 0xffff == 0 {
      var l := (s + y) / 0xffff;
      assert s + y == 0xffff * l;
      if x <= y {
        assert y == x + 0xffff * (l - k);
        ResidueAdd(x, l - k);
      } else {
        assert x == y + 0xffff * (k - l);
        ResidueAdd(y, k - l);
      }
    }
    if x % 0xffff == y % 0xffff {
      var m := y / 0xffff - x / 0xffff;
      assert s + y == 0xffff * (k + m);
      ResidueAdd(0, k + m);
    }
  }
}
