/**
 * Dotted-quad IPv4 addresses (RFC 791) and CIDR prefix blocks (section 3.1 of
 * RFC 4632): the subnet containment test behind isInIpAddressRange.
 */
module Ipv4 {
  import opened Wrappers
  import opened Text
  import opened Decimal

  const AddressSpace: nat := 0x1_0000_0000

  /** A 32-bit unsigned address, most significant octet first. */
  type Address = a: nat | a < AddressSpace

  /** The length of a network prefix, in bits. */
  type PrefixLength = n: nat | n <= 32

  /** An "a.b.c.d/n" token after parsing. */
  datatype Cidr = Cidr(network: Address, prefixLength: PrefixLength)

  /** One to three decimal digits with value at most 255 (leading zeros allowed). */
  function ParseOctet(s: string): (r: Option<nat>)
    ensures r.Some? ==> r.value < 256
  {
    if 1 <= |s| <= 3 then
      match ParseDigits(s)
      case Some(v) => if v < 256 then Some(v) else None
      case None => None
    else None
  }

  /** Parses a dotted quad into its 32-bit value; None for anything malformed.
      A well-formed address is four dot-separated octets, so it holds digits
      and dots only (ParseDottedQuad gives its value). */
  function ParseAddress(s: string): (r: Option<Address>)
    ensures r.Some? ==>
      && |Split(s, '.')| == 4
      && forall k :: 0 <= k < 4 ==> ParseOctet(Split(s, '.')[k]).Some?
    ensures r.Some? ==> s != "" && forall i :: 0 <= i < |s| ==> IsDigit(s[i]) || s[i] == '.'
  {
    var parts := Split(s, '.');
    if |parts| != 4 then None
    else
      match (ParseOctet(parts[0]), ParseOctet(parts[1]), ParseOctet(parts[2]), ParseOctet(parts[3]))
      case (Some(a), Some(b), Some(c), Some(d)) =>
        DigitsAndDots(s);
        Some(((a * 256 + b) * 256 + c) * 256 + d)
      case _ => None
  }

  /** A string whose dot-separated pieces are octets holds digits and dots only. */
  lemma DigitsAndDots(s: string)
    requires forall k :: 0 <= k < |Split(s, '.')| ==> ParseOctet(Split(s, '.')[k]).Some?
    ensures s != "" && forall i :: 0 <= i < |s| ==> IsDigit(s[i]) || s[i] == '.'
  {
    var parts := Split(s, '.');
    JoinSplit(s, '.');
    OctetsAreDigits(parts[0]);
    forall i | 0 <= i < |s|
      ensures IsDigit(s[i]) || s[i] == '.'
    {
      JoinCharacters(parts, '.', s[i]);
      if s[i] != '.' {
        var k :| 0 <= k < |parts| && s[i] in parts[k];
        OctetsAreDigits(parts[k]);
      }
    }
  }

  /** Four octets written in decimal and joined with dots. */
  function DottedQuad(o0: nat, o1: nat, o2: nat, o3: nat): string {
    Join([NatToString(o0), NatToString(o1), NatToString(o2), NatToString(o3)], '.')
  }

  /** The canonical dotted quad of an address. */
  function FormatAddress(a: Address): string {
    DottedQuad(a / 0x100_0000, a / 0x1_0000 % 256, a / 0x100 % 256, a % 256)
  }

  lemma OctetOfNatToString(n: nat)
    requires n < 256
    ensures ParseOctet(NatToString(n)) == Some(n)
  {
    ParseNatToString(n);
  }

  lemma NoDotInNatToString(n: nat)
    ensures '.' !in NatToString(n)
  {
  }

  /** Four octets in decimal denote the address they spell, most significant first. */
  lemma ParseDottedQuad(o0: nat, o1: nat, o2: nat, o3: nat)
    requires o0 < 256 && o1 < 256 && o2 < 256 && o3 < 256
    ensures ParseAddress(DottedQuad(o0, o1, o2, o3)) == Some(QuadValue(o0, o1, o2, o3))
  {
    var parts := [NatToString(o0), NatToString(o1), NatToString(o2), NatToString(o3)];
    NoDotInNatToString(o0);
    NoDotInNatToString(o1);
    NoDotInNatToString(o2);
    NoDotInNatToString(o3);
    SplitJoin(parts, '.');
    OctetOfNatToString(o0);
    OctetOfNatToString(o1);
    OctetOfNatToString(o2);
    OctetOfNatToString(o3);
    assert Split(DottedQuad(o0, o1, o2, o3), '.') == parts;
  }

  /** Reassembling the four octets of an address gives the address back. */
  lemma OctetsRecombine(a: Address)
    ensures ((a / 0x100_0000 * 256 + a / 0x1_0000 % 256) * 256 + a / 0x100 % 256) * 256 + a % 256 == a
  {
    var q1 := a / 0x100;
    var q2 := q1 / 0x100;
    var q3 := q2 / 0x100;
    assert a == q1 * 256 + a % 256;
    assert q1 == q2 * 256 + q1 % 256;
    assert q2 == q3 * 256 + q2 % 256;
    assert q1 % 256 == a / 0x100 % 256;
    assert q2 == a / 0x1_0000;
    assert q3 == a / 0x100_0000;
  }

  /** Parsing undoes formatting: every address has a dotted quad that denotes it. */
  lemma ParseFormatAddress(a: Address)
    ensures ParseAddress(FormatAddress(a)) == Some(a)
  {
    ParseDottedQuad(a / 0x100_0000, a / 0x1_0000 % 256, a / 0x100 % 256, a % 256);
    OctetsRecombine(a);
  }

  /** One or two decimal digits with value at most 32. */
  function ParsePrefixLength(s: string): (r: Option<nat>)
    ensures r.Some? ==> r.value <= 32
  {
    if 1 <= |s| <= 2 then
      match ParseDigits(s)
      case Some(v) => if v <= 32 then Some(v) else None
      case None => None
    else None
  }

  /** Parses "a.b.c.d/n"; None when the slash, the address or the prefix length
      is malformed. A block that parses is an address and a prefix length
      joined by its one slash. */
  function ParseCidr(s: string): (r: Option<Cidr>)
    ensures r.Some? ==> '/' in s
    ensures r.Some? ==> exists a, n ::
      && s == a + "/" + n
      && ParseAddress(a) == Some(r.value.network)
      && ParsePrefixLength(n) == Some(r.value.prefixLength as nat)
  {
    var parts := Split(s, '/');
    if |parts| != 2 then None
    else
      match (ParseAddress(parts[0]), ParsePrefixLength(parts[1]))
      case (Some(net), Some(n)) =>
        JoinSplit(s, '/');
        assert Join(parts, '/') == parts[0] + "/" + parts[1];
        Some(Cidr(net, n))
      case _ => None
  }

  /** An address and a prefix length joined with a slash form the block they spell. */
  lemma ParseCidrOf(address: string, prefixLength: nat)
    requires ParseAddress(address).Some? && prefixLength <= 32
    ensures ParseCidr(address + "/" + NatToString(prefixLength))
         == Some(Cidr(ParseAddress(address).value, prefixLength))
  {
    NoSeparatorsInAddress(address);
    var suffix := NatToString(prefixLength);
    assert '/' !in suffix;
    SplitJoin([address, suffix], '/');
    assert Join([address, suffix], '/') == address + "/" + suffix;
    ParseNatToString(prefixLength);
  }

  function Pow2(n: nat): (r: nat)
    ensures r >= 1
  {
    if n == 0 then 1 else 2 * Pow2(n - 1)
  }

  lemma {:induction false} Pow2Add(m: nat, n: nat)
    ensures Pow2(m + n) == Pow2(m) * Pow2(n)
  {
    if n > 0 {
      Pow2Add(m, n - 1);
    }
  }

  lemma {:induction false} Pow2ThirtyTwo()
    ensures Pow2(32) == AddressSpace
  {
    Pow2Add(16, 16);
    Pow2Add(8, 8);
    Pow2Add(4, 4);
    Pow2Add(2, 2);
  }

  /** Number of addresses in a block with the given prefix length, 2^(32 - n). */
  function BlockSize(prefixLength: nat): (r: nat)
    requires prefixLength <= 32
    ensures r >= 1
  {
    Pow2(32 - prefixLength)
  }

  /** The first n bits of an address, a >> (32 - n). Two addresses have the same
      prefix exactly when the second lies in the aligned block of 2^(32 - n)
      addresses around the first (PrefixIffWithinBlock). */
  function NetworkPrefix(a: nat, prefixLength: nat): nat
    requires prefixLength <= 32
  {
    ShiftRight(a, 32 - prefixLength)
  }

  /** a >> k, as k halvings. */
  function ShiftRight(a: nat, k: nat): nat {
    if k == 0 then a else ShiftRight(a, k - 1) / 2
  }

  /** The containment test: both addresses agree on the first n bits. That is,
      the address lies between the block's first and last address, network and
      broadcast addresses included; a malformed block or address is in no range. */
  function IsInIpAddressRange(cidr: string, ipAddress: string): (r: bool)
    ensures r <==>
      && ParseCidr(cidr).Some?
      && ParseAddress(ipAddress).Some?
      && LowAddress(ParseCidr(cidr).value) <= ParseAddress(ipAddress).value <= HighAddress(ParseCidr(cidr).value)
  {
    match (ParseCidr(cidr), ParseAddress(ipAddress))
    case (Some(c), Some(ip)) =>
      PrefixIffWithinBlock(c.network, ip, c.prefixLength);
      NetworkPrefix(c.network, c.prefixLength) == NetworkPrefix(ip, c.prefixLength)
    case _ => false
  }

  /** Lowest and highest address of the block, counting network and broadcast addresses. */
  function LowAddress(c: Cidr): nat {
    NetworkPrefix(c.network, c.prefixLength) * BlockSize(c.prefixLength)
  }

  function HighAddress(c: Cidr): nat {
    LowAddress(c) + BlockSize(c.prefixLength) - 1
  }

  lemma {:induction false} MulMonotonic(a: nat, b: nat, m: nat)
    requires a <= b
    ensures a * m <= b * m
    decreases b - a
  {
    if a < b {
      MulMonotonic(a, b - 1, m);
      assert b * m == (b - 1) * m + m;
    }
  }

  lemma MulStrict(a: nat, b: nat, m: nat)
    requires a * m < b * m
    ensures a < b
  {
    if a >= b {
      MulMonotonic(b, a, m);
    }
  }

  lemma QuotientAtLeast(x: nat, m: nat, q: nat)
    requires m >= 1 && q * m <= x
    ensures q <= x / m
  {
    var d := x / m;
    assert x < d * m + m;
    assert (d + 1) * m == d * m + m;
    MulStrict(q, d + 1, m);
  }

  lemma QuotientAtMost(x: nat, m: nat, q: nat)
    requires m >= 1 && x < q * m + m
    ensures x / m <= q
  {
    var d := x / m;
    assert d * m <= x;
    assert (q + 1) * m == q * m + m;
    MulStrict(d, q + 1, m);
  }

  /** Integer division is determined by the bracketing multiples. */
  lemma DivUnique(x: nat, m: nat, q: nat)
    requires m >= 1
    requires q * m <= x < q * m + m
    ensures x / m == q
  {
    QuotientAtLeast(x, m, q);
    QuotientAtMost(x, m, q);
  }

  /** Two numbers have the same quotient by m exactly when the second lies in
      the m-aligned interval that contains the first. */
  lemma SameQuotientIffWithin(a: nat, b: nat, m: nat)
    requires m >= 1
    ensures a / m == b / m <==> a / m * m <= b < a / m * m + m
  {
    var q := a / m;
    assert b == b / m * m + b % m;
    if q * m <= b < q * m + m {
      DivUnique(b, m, q);
    }
  }

  lemma PrefixIffWithinBlock(network: nat, ip: nat, prefixLength: nat)
    requires prefixLength <= 32
    ensures var low := NetworkPrefix(network, prefixLength) * BlockSize(prefixLength);
      NetworkPrefix(network, prefixLength) == NetworkPrefix(ip, prefixLength)
      <==> low <= ip < low + BlockSize(prefixLength)
  {
    var k := 32 - prefixLength;
    ShiftRightIsDiv(network, k);
    ShiftRightIsDiv(ip, k);
    SameQuotientIffWithin(network, ip, Pow2(k));
  }

  /** A /32 block holds exactly its own address. */
  lemma FullPrefixIsExact(cidr: string, ipAddress: string, c: Cidr, ip: Address)
    requires ParseCidr(cidr) == Some(c) && ParseAddress(ipAddress) == Some(ip)
    requires c.prefixLength == 32
    ensures IsInIpAddressRange(cidr, ipAddress) <==> ip == c.network
  {
  }

  lemma ZeroPrefixIsZero(a: Address)
    ensures NetworkPrefix(a, 0) == 0
  {
    Pow2ThirtyTwo();
    ShiftRightIsDiv(a, 32);
    DivUnique(a, Pow2(32), 0);
  }

  /** A /0 block holds every well-formed address. */
  lemma ZeroPrefixHoldsAll(cidr: string, ipAddress: string, c: Cidr, ip: Address)
    requires ParseCidr(cidr) == Some(c) && ParseAddress(ipAddress) == Some(ip)
    requires c.prefixLength == 0
    ensures IsInIpAddressRange(cidr, ipAddress)
  {
    ZeroPrefixIsZero(c.network);
    ZeroPrefixIsZero(ip);
  }

  /** A malformed address is never in any range, and a malformed block holds nothing. */
  lemma MalformedNeverInRange(cidr: string, ipAddress: string)
    requires ParseCidr(cidr).None? || ParseAddress(ipAddress).None?
    ensures !IsInIpAddressRange(cidr, ipAddress)
  {
  }

  lemma DivByRemainder(x: nat, k: nat, q: nat, r: nat)
    requires k >= 1 && r < k && x == q * k + r
    ensures x / k == q
  {
    DivUnique(x, k, q);
  }

  /** Halving the quotient by m is the quotient by 2m. */
  lemma DivHalf(x: nat, m: nat)
    requires m >= 1
    ensures x / m / 2 == x / (2 * m)
  {
    var y := x / m;
    var q, r1, r2 := y / 2, x % m, y % 2;
    assert x == y * m + r1 && r1 < m;
    assert y == 2 * q + r2 && r2 <= 1;
    assert y * m == q * (2 * m) + r2 * m;
    assert r2 * m <= m;
    DivByRemainder(x, 2 * m, q, r2 * m + r1);
  }

  /** k halvings divide by 2^k. */
  lemma {:induction false} ShiftRightIsDiv(a: nat, k: nat)
    ensures ShiftRight(a, k) == a / Pow2(k)
  {
    if k > 0 {
      ShiftRightIsDiv(a, k - 1);
      DivHalf(a, Pow2(k - 1));
    }
  }

  /** Blocks nest (section 3.1 of RFC 4632): an address in a block with a
      longer prefix is also in the shorter-prefix block around it. */
  lemma {:induction false} ShorterPrefixContains(a: nat, b: nat, shorter: nat, longer: nat)
    requires shorter <= longer <= 32
    requires NetworkPrefix(a, longer) == NetworkPrefix(b, longer)
    ensures NetworkPrefix(a, shorter) == NetworkPrefix(b, shorter)
    decreases longer - shorter
  {
    if shorter < longer {
      assert NetworkPrefix(a, longer - 1) == NetworkPrefix(a, longer) / 2;
      assert NetworkPrefix(b, longer - 1) == NetworkPrefix(b, longer) / 2;
      ShorterPrefixContains(a, b, shorter, longer - 1);
    }
  }

  /** A string with any character other than a digit or a dot is no address. */
  lemma NotAnAddress(s: string, i: nat)
    requires i < |s| && !IsDigit(s[i]) && s[i] != '.'
    ensures ParseAddress(s).None?
  {
  }

  /** A well-formed address is one clean word: no comma, no slash, no white-space border. */
  lemma NoSeparatorsInAddress(s: string)
    requires ParseAddress(s).Some?
    ensures s != "" && IsTrimmed(s) && ',' !in s && '/' !in s && s != "*"
  {
  }

  lemma OctetsAreDigits(s: string)
    requires ParseOctet(s).Some?
    ensures s != "" && forall i :: 0 <= i < |s| ==> IsDigit(s[i])
  {
  }

  lemma NoSeparatorsInCidr(s: string)
    requires ParseCidr(s).Some?
    ensures s != "" && IsTrimmed(s) && ',' !in s && s != "*"
  {
    var parts := Split(s, '/');
    JoinSplit(s, '/');
    NoSeparatorsInAddress(parts[0]);
    assert ParsePrefixLength(parts[1]).Some?;
    assert s == parts[0] + "/" + parts[1];
  }

  // ---------------------------------------------------------------------------
  // Blocks named by their octets.

  /** A dotted quad loses its last octet, and only that, when shifted right by 8. */
  lemma DropLastOctet(q: nat, x: nat)
    requires x < 256
    ensures NetworkPrefix(q * 256 + x, 24) == q
  {
    ShiftRightIsDiv(q * 256 + x, 8);
    assert Pow2(8) == 256;
    DivByRemainder(q * 256 + x, 256, q, x);
  }

  /** Two octet sequences with the same value are the same octets. */
  lemma OctetsDetermined(q: nat, x: nat, p: nat, y: nat)
    requires x < 256 && y < 256 && q * 256 + x == p * 256 + y
    ensures q == p && x == y
  {
    DivByRemainder(q * 256 + x, 256, q, x);
    DivByRemainder(p * 256 + y, 256, p, y);
  }

  /** The 32-bit value of four octets, most significant first. */
  function QuadValue(o0: nat, o1: nat, o2: nat, o3: nat): nat {
    ((o0 * 256 + o1) * 256 + o2) * 256 + o3
  }

  /** The containment test on two strings that parse. */
  lemma InRangeOfParsed(cidr: string, ipAddress: string, c: Cidr, ip: Address)
    requires ParseCidr(cidr) == Some(c) && ParseAddress(ipAddress) == Some(ip)
    ensures IsInIpAddressRange(cidr, ipAddress) <==> NetworkPrefix(c.network, c.prefixLength) == NetworkPrefix(ip, c.prefixLength)
  {
  }

  /** Two addresses agree on 24 bits exactly when they agree on the first three octets. */
  lemma PrefixTwentyFourOctets(o0: nat, o1: nat, o2: nat, o3: nat, p0: nat, p1: nat, p2: nat, p3: nat)
    requires o0 < 256 && o1 < 256 && o2 < 256 && o3 < 256
    requires p0 < 256 && p1 < 256 && p2 < 256 && p3 < 256
    ensures NetworkPrefix(QuadValue(o0, o1, o2, o3), 24) == NetworkPrefix(QuadValue(p0, p1, p2, p3), 24)
        <==> o0 == p0 && o1 == p1 && o2 == p2
  {
    DropLastOctet((o0 * 256 + o1) * 256 + o2, o3);
    DropLastOctet((p0 * 256 + p1) * 256 + p2, p3);
    if (o0 * 256 + o1) * 256 + o2 == (p0 * 256 + p1) * 256 + p2 {
      OctetsDetermined(o0 * 256 + o1, o2, p0 * 256 + p1, p2);
      OctetsDetermined(o0, o1, p0, p1);
    }
  }

  /** Two addresses are equal exactly when their four octets are. */
  lemma QuadValueInjective(o0: nat, o1: nat, o2: nat, o3: nat, p0: nat, p1: nat, p2: nat, p3: nat)
    requires o0 < 256 && o1 < 256 && o2 < 256 && o3 < 256
    requires p0 < 256 && p1 < 256 && p2 < 256 && p3 < 256
    ensures QuadValue(o0, o1, o2, o3) == QuadValue(p0, p1, p2, p3) <==> o0 == p0 && o1 == p1 && o2 == p2 && o3 == p3
  {
    if QuadValue(o0, o1, o2, o3) == QuadValue(p0, p1, p2, p3) {
      OctetsDetermined((o0 * 256 + o1) * 256 + o2, o3, (p0 * 256 + p1) * 256 + p2, p3);
      OctetsDetermined(o0 * 256 + o1, o2, p0 * 256 + p1, p2);
      OctetsDetermined(o0, o1, p0, p1);
    }
  }

  /** A /24 block holds exactly the addresses that share its first three octets. */
  lemma SlashTwentyFourBlock(o0: nat, o1: nat, o2: nat, o3: nat, p0: nat, p1: nat, p2: nat, p3: nat)
    requires o0 < 256 && o1 < 256 && o2 < 256 && o3 < 256
    requires p0 < 256 && p1 < 256 && p2 < 256 && p3 < 256
    ensures IsInIpAddressRange(DottedQuad(o0, o1, o2, o3) + "/" + NatToString(24), DottedQuad(p0, p1, p2, p3))
        <==> o0 == p0 && o1 == p1 && o2 == p2
  {
    var network, ip := DottedQuad(o0, o1, o2, o3), DottedQuad(p0, p1, p2, p3);
    ParseDottedQuad(o0, o1, o2, o3);
    ParseDottedQuad(p0, p1, p2, p3);
    ParseCidrOf(network, 24);
    InRangeOfParsed(network + "/" + NatToString(24), ip, Cidr(QuadValue(o0, o1, o2, o3), 24), QuadValue(p0, p1, p2, p3));
    PrefixTwentyFourOctets(o0, o1, o2, o3, p0, p1, p2, p3);
  }

  /** A /32 block holds exactly its own address. */
  lemma SlashThirtyTwoBlock(o0: nat, o1: nat, o2: nat, o3: nat, p0: nat, p1: nat, p2: nat, p3: nat)
    requires o0 < 256 && o1 < 256 && o2 < 256 && o3 < 256
    requires p0 < 256 && p1 < 256 && p2 < 256 && p3 < 256
    ensures IsInIpAddressRange(DottedQuad(o0, o1, o2, o3) + "/" + NatToString(32), DottedQuad(p0, p1, p2, p3))
        <==> o0 == p0 && o1 == p1 && o2 == p2 && o3 == p3
  {
    var network, ip := DottedQuad(o0, o1, o2, o3), DottedQuad(p0, p1, p2, p3);
    ParseDottedQuad(o0, o1, o2, o3);
    ParseDottedQuad(p0, p1, p2, p3);
    ParseCidrOf(network, 32);
    FullPrefixIsExact(network + "/" + NatToString(32), ip, Cidr(QuadValue(o0, o1, o2, o3), 32), QuadValue(p0, p1, p2, p3));
    QuadValueInjective(o0, o1, o2, o3, p0, p1, p2, p3);
  }
}
