/**
 Ethernet frames as bytes: the fields the router reads and the IPv4 header checksum.
 Multi-byte fields are in network order; the checksum code reads the header as
 16-bit words in host order, here little-endian.
 */
module Frames {
  import opened Bits
  import opened Routes

  type Frame = seq<Byte>

  const ETHER_HDR_LEN := 14
  const ETHER_MAX_LEN := 1518
  const ETHER_CRC_LEN := 4
  const ETHER_TYPE_IPV4 := 0x0800
  const ETHER_TYPE_IPV6 := 0x86DD
  const ETHER_TYPE_ARP := 0x0806
  const IPV4_HDR_LEN := 20
  const IPV6_HDR_LEN := 40
  const ARP_HDR_LEN := 28

  const IPV4_END := 34
  const ARP_END := 42

  const TTL := 22
  const CHECKSUM := 24
  const IPV4_DST := 30
  const ARP_OP := 20
  const ARP_SHA := 22
  const ARP_SIP := 28
  const ARP_THA := 32
  const ARP_TIP := 38

  const BROADCAST: Mac := [0xFF, 0xFF, 0xFF, 0xFF, 0xFF, 0xFF]

  function Be16(f: Frame, off: nat): Word16
    requires off + 2 <= |f|
  {
    (f[off] as int) * 0x100 + f[off + 1]
  }

  function Be32(f: Frame, off: nat): Word32
    requires off + 4 <= |f|
  {
    Be16(f, off) * 0x1_0000 + Be16(f, off + 2)
  }

  function DstMac(f: Frame): Mac
    requires ETHER_HDR_LEN <= |f|
  {
    f[0..6]
  }

  function SrcMac(f: Frame): Mac
    requires ETHER_HDR_LEN <= |f|
  {
    f[6..12]
  }

  function EtherType(f: Frame): Word16
    requires ETHER_HDR_LEN <= |f|
  {
    Be16(f, 12)
  }

  /** f with the bytes from off replaced. */
  function Splice(f: Frame, off: nat, bytes: seq<Byte>): (g: Frame)
    requires off + |bytes| <= |f|
    ensures |g| == |f|
    ensures forall i :: 0 <= i < |f| ==> g[i] == if off <= i < off + |bytes| then bytes[i - off] else f[i]
  {
    f[..off] + bytes + f[off + |bytes|..]
  }

  // ---------- IPv4 header ----------

  function Version(f: Frame): nat
    requires IPV4_END <= |f|
  {
    And(f[ETHER_HDR_LEN], 0xF0) / 0x10
  }

  function Ihl(f: Frame): nat
    requires IPV4_END <= |f|
  {
    And(f[ETHER_HDR_LEN], 0x0F)
  }

  /** The masks take the first header byte apart into its two halves. */
  lemma {:induction false} VersionAndIhl(f: Frame)
    requires IPV4_END <= |f|
    ensures Version(f) == f[ETHER_HDR_LEN] / 0x10 && Ihl(f) == f[ETHER_HDR_LEN] % 0x10
  {
    Pow2Values();
    assert Pow2(4) == 0x10;
    AndHighMask(f[ETHER_HDR_LEN], 4, 8);
    AndLowMask(f[ETHER_HDR_LEN], 4);
    hide And, Pow2;
  }

  // ---------- IPv4 header checksum ----------

  /** The i-th 16-bit word of the IPv4 header, in host order. */
  function HeaderWord(f: Frame, i: nat): Word16
    requires ETHER_HDR_LEN + 2 * i + 2 <= |f|
  {
    f[ETHER_HDR_LEN + 2 * i] + 0x100 * (f[ETHER_HDR_LEN + 2 * i + 1] as int)
  }

  /** The sum of the ten words that every header has; the code never looks further. */
  function FixedSum(f: Frame): Word32
    requires IPV4_END <= |f|
  {
    HeaderWord(f, 0) + HeaderWord(f, 1) + HeaderWord(f, 2) + HeaderWord(f, 3) + HeaderWord(f, 4)
    + HeaderWord(f, 5) + HeaderWord(f, 6) + HeaderWord(f, 7) + HeaderWord(f, 8) + HeaderWord(f, 9)
  }

  /** The header with its options lies in the frame. */
  predicate HeaderFits(f: Frame) {
    IPV4_END <= |f| && 5 <= Ihl(f) <= 15 && ETHER_HDR_LEN + 4 * Ihl(f) <= |f|
  }

  /** The sum of the words from the tenth up to the n-th: the options of a header of n words. */
  function OptionWords(f: Frame, n: nat): (s: nat)
    requires 10 <= n <= 30 && ETHER_HDR_LEN + 2 * n <= |f|
    ensures s <= (n - 10) * 0xFFFF
  {
    if n == 10 then 0 else OptionWords(f, n - 1) + HeaderWord(f, n - 1)
  }

  function OptionSum(f: Frame): nat
    requires HeaderFits(f)
  {
    OptionWords(f, 2 * Ihl(f))
  }

  /** The sum of all 2 * IHL words of the header. */
  function HeaderSum(f: Frame): Word32
    requires HeaderFits(f)
  {
    FixedSum(f) + OptionSum(f)
  }

  function Fold(sum: Word32): Word32 {
    sum / 0x1_0000 + sum % 0x1_0000
  }

  /** Two folds bring a 32-bit sum down to 16 bits. */
  function Reduce(sum: Word32): (r: Word16)
    ensures r == 0 <==> sum == 0
    ensures r % 0xFFFF == sum % 0xFFFF
  {
    FoldKeepsResidue(sum);
    FoldKeepsResidue(Fold(sum));
    Fold(Fold(sum))
  }

  lemma FoldKeepsResidue(sum: Word32)
    ensures Fold(sum) % 0xFFFF == sum % 0xFFFF
    ensures Fold(sum) == 0 <==> sum == 0
  {
    assert sum == Fold(sum) + 0xFFFF * (sum / 0x1_0000);
  }

  function Ipv4Cksum(f: Frame): Word16
    requires IPV4_END <= |f|
  {
    var cksum := Reduce(FixedSum(f));
    if cksum == 0xFFFF then cksum else 0xFFFF - cksum
  }

  function ChecksumField(f: Frame): Word16
    requires IPV4_END <= |f|
  {
    HeaderWord(f, 5)
  }

  function WithChecksum(f: Frame, c: Word16): (g: Frame)
    requires IPV4_END <= |f|
    ensures |g| == |f| && ChecksumField(g) == c
    ensures forall i :: 0 <= i < |f| && i != CHECKSUM && i != CHECKSUM + 1 ==> g[i] == f[i]
  {
    f[CHECKSUM := c % 0x100][CHECKSUM + 1 := c / 0x100]
  }

  /** The header's checksum is the one the router would compute for it. */
  predicate ChecksumOk(f: Frame)
    requires IPV4_END <= |f|
  {
    Ipv4Cksum(WithChecksum(f, 0)) == ChecksumField(f)
  }

  /** The same verification over the first 20 bytes alone. */
  predicate FixedPartOk(f: Frame)
    requires IPV4_END <= |f|
  {
    Reduce(FixedSum(f)) == 0xFFFF
  }

  /** The verification of RFC 1071: the one's complement sum of the whole header, options
      included, is all ones. */
  predicate OnesComplementOk(f: Frame)
    requires HeaderFits(f)
  {
    Reduce(HeaderSum(f)) == 0xFFFF
  }

  lemma SumSplitsChecksum(f: Frame)
    requires IPV4_END <= |f|
    ensures FixedSum(f) == FixedSum(WithChecksum(f, 0)) + ChecksumField(f)
  {
  }

  /** What the router checks: the first 20 bytes verify and the checksum field is not 0x0000. There
      it would compute 0xFFFF, which stands for the same number in one's complement but is a
      different field value. */
  lemma FixedTestExactly(f: Frame)
    requires IPV4_END <= |f|
    ensures ChecksumOk(f) <==> FixedPartOk(f) && ChecksumField(f) != 0
  {
    SumSplitsChecksum(f);
    ComplementUnique(FixedSum(WithChecksum(f, 0)), ChecksumField(f));
  }

  /** The router's test against that of RFC 1071. If the option words sum to zero modulo 65535 (as
      when there are none) it is the same test, except that a zero checksum field is
      refused. Otherwise the two never agree to accept: what one accepts the other refuses. */
  lemma {:induction false} ChecksumTestExactly(f: Frame)
    requires HeaderFits(f)
    ensures OptionSum(f) % 0xFFFF == 0 ==> (ChecksumOk(f) <==> OnesComplementOk(f) && ChecksumField(f) != 0)
    ensures OptionSum(f) % 0xFFFF != 0 ==> !(ChecksumOk(f) && OnesComplementOk(f))
  {
    FixedTestExactly(f);
    SumSplitsChecksum(f);
    var fixed, options := FixedSum(f), OptionSum(f);
    AllOnesExactly(fixed);
    AllOnesExactly(fixed + options);
    ResidueOfSum(fixed, options);
    hide ChecksumOk, Reduce, FixedSum, OptionSum, Ihl;
  }

  /** Without options the header is its first 20 bytes. */
  lemma NoOptions(f: Frame)
    requires IPV4_END <= |f| && Ihl(f) == 5
    ensures HeaderFits(f) && OptionSum(f) == 0 && (OnesComplementOk(f) <==> FixedPartOk(f))
  {
    hide Ihl, FixedSum, Reduce;
  }

  /** The residue modulo 65535, except that a positive multiple gives all ones. */
  lemma ReduceIs(sum: Word32)
    ensures Reduce(sum) == if sum == 0 then 0 else if sum % 0xFFFF == 0 then 0xFFFF else sum % 0xFFFF
  {
    hide Reduce;
    ResidueIs(Reduce(sum));
  }

  lemma ResidueIs(r: Word16)
    ensures r % 0xFFFF == if r == 0xFFFF then 0 else r
  {
  }

  /** A sum reduces to all ones exactly when it is a positive multiple of 65535. */
  lemma AllOnesExactly(sum: Word32)
    ensures Reduce(sum) == 0xFFFF <==> sum > 0 && sum % 0xFFFF == 0
  {
    ReduceIs(sum);
    hide Reduce;
  }

  lemma ResidueOfSum(a: nat, b: nat)
    ensures a % 0xFFFF == 0 ==> (a + b) % 0xFFFF == b % 0xFFFF
    ensures b % 0xFFFF == 0 ==> (a + b) % 0xFFFF == a % 0xFFFF
  {
  }

  lemma ComplementUnique(sum: Word32, c: Word16)
    requires sum + c < 0x1_0000_0000
    ensures c == (if Reduce(sum) == 0xFFFF then 0xFFFF else 0xFFFF - Reduce(sum)) <==>
            Reduce(sum + c) == 0xFFFF && c != 0
  {
    hide Reduce;
    ReduceIs(sum);
    AllOnesExactly(sum + c);
    ResidueZero(sum, c);
    ComplementOf(sum, sum % 0xFFFF, c);
  }

  lemma ComplementOf(sum: nat, s: nat, c: Word16)
    requires s < 0xFFFF && (sum == 0 ==> s == 0)
    ensures var r := if sum == 0 then 0 else if s == 0 then 0xFFFF else s;
            c == (if r == 0xFFFF then 0xFFFF else 0xFFFF - r) <==>
            sum + c > 0 && (s + c == 0 || s + c == 0xFFFF) && c != 0
  {
  }

  lemma ResidueZero(sum: Word32, c: Word16)
    ensures (sum + c) % 0xFFFF == 0 <==> sum % 0xFFFF + c == 0 || sum % 0xFFFF + c == 0xFFFF
  {
    var q, s := sum / 0xFFFF, sum % 0xFFFF;
    if s + c < 0xFFFF {
      QuotientUnique(sum + c, 0xFFFF, q, s + c);
    } else {
      QuotientUnique(sum + c, 0xFFFF, q + 1, s + c - 0xFFFF);
    }
  }

  /** A checksum the router writes always passes its own test, and passes that of RFC 1071 exactly
      when the option words sum to zero modulo 65535. */
  lemma {:induction false} WrittenChecksumExactly(f: Frame)
    requires IPV4_END <= |f|
    ensures var g := WithChecksum(f, Ipv4Cksum(WithChecksum(f, 0)));
            && ChecksumOk(g)
            && (HeaderFits(g) ==> (OnesComplementOk(g) <==> OptionSum(g) % 0xFFFF == 0))
  {
    var g := WithChecksum(f, Ipv4Cksum(WithChecksum(f, 0)));
    assert WithChecksum(g, 0) == WithChecksum(f, 0);
    assert ChecksumOk(g);
    hide Ipv4Cksum, ChecksumOk, OnesComplementOk, OptionSum;
    if HeaderFits(g) {
      ChecksumTestExactly(g);
    }
  }
}
