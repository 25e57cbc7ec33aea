/** IPv4 addresses as CPython's `ipaddress` module handles them: a 32-bit value,
    read from a strict dotted quad, printed back in canonical form, and tested
    for membership in a network given in CIDR notation (section 3.1 of RFC 4632). */
module Ipv4 {
  import opened Wrappers
  import opened Text

  /** A 32-bit address, most significant octet first. */
  type Addr = n: nat | n < 0x1_0000_0000

  function Octets(a: nat, b: nat, c: nat, d: nat): Addr
    requires a < 256 && b < 256 && c < 256 && d < 256
  {
    ((a * 256 + b) * 256 + c) * 256 + d
  }

  // ---------------------------------------------------------------- text form

  function DigitChar(d: nat): char
    requires d < 10
  {
    (('0' as int) + d) as char
  }

  function DigitValue(c: char): nat
    requires IsAsciiDigit(c)
  {
    (c as int) - ('0' as int)
  }

  predicate AllDigits(s: string) {
    forall i :: 0 <= i < |s| ==> IsAsciiDigit(s[i])
  }

  /** `int(s, 10)` on a string of ASCII digits. */
  function DecimalValue(s: string): nat
    requires AllDigits(s)
  {
    if |s| == 0 then 0 else DecimalValue(s[..|s| - 1]) * 10 + DigitValue(s[|s| - 1])
  }

  /** `_parse_octet`: one to three ASCII digits, no leading zero, at most 255. */
  function ParseOctet(s: string): Option<nat> {
    if |s| == 0 || !AllDigits(s) || |s| > 3 then None
    else if s != "0" && s[0] == '0' then None
    else
      var v := DecimalValue(s);
      if v > 255 then None else Some(v)
  }

  /** `str(octet)`: decimal without leading zeros. */
  function FormatOctet(o: nat): string
    requires o < 256
  {
    if o < 10 then [DigitChar(o)]
    else if o < 100 then [DigitChar(o / 10), DigitChar(o % 10)]
    else [DigitChar(o / 10 / 10), DigitChar(o / 10 % 10), DigitChar(o % 10)]
  }

  /** `IPv4Address(s)` on a string: exactly four dot-separated octets. */
  function Parse(s: string): Option<Addr> {
    var parts := Split(s, '.');
    if |parts| != 4 then None
    else
      match (ParseOctet(parts[0]), ParseOctet(parts[1]), ParseOctet(parts[2]), ParseOctet(parts[3]))
      case (Some(a), Some(b), Some(c), Some(d)) => Some(Octets(a, b, c, d))
      case _ => None
  }

  /** `ip.to_bytes(4, 'big')`. */
  function OctetsOf(a: Addr): seq<nat> {
    [a / 256 / 256 / 256, a / 256 / 256 % 256, a / 256 % 256, a % 256]
  }

  /** `str(IPv4Address)`: the canonical dotted quad. */
  function Format(a: Addr): string {
    var o := OctetsOf(a);
    FormatOctet(o[0]) + "." + FormatOctet(o[1]) + "." + FormatOctet(o[2]) + "." + FormatOctet(o[3])
  }

  lemma DigitCharValue(d: nat)
    requires d < 10
    ensures IsAsciiDigit(DigitChar(d)) && DigitValue(DigitChar(d)) == d
  {
  }

  lemma OctetRoundTrip(o: nat)
    requires o < 256
    ensures ParseOctet(FormatOctet(o)) == Some(o)
  {
    var s := FormatOctet(o);
    DigitCharValue(o % 10);
    DigitCharValue(o / 10 % 10);
    if o >= 100 {
      DigitCharValue(o / 10 / 10);
      assert s[..2][..1] == s[..1];
      assert DecimalValue(s[..1]) == o / 10 / 10;
      assert DecimalValue(s[..2]) == o / 10;
      assert DecimalValue(s) == o;
    } else if o >= 10 {
      DigitCharValue(o / 10);
      assert s[..1] == [s[0]];
      assert DecimalValue(s[..1]) == o / 10;
    } else {
      DigitCharValue(o);
      assert DecimalValue(s) == DecimalValue(s[..0]) * 10 + o;
    }
  }

  lemma DecimalValueSteps(s: string)
    requires AllDigits(s) && 1 <= |s| <= 3
    ensures |s| == 1 ==> DecimalValue(s) == DigitValue(s[0])
    ensures |s| == 2 ==> DecimalValue(s) == DigitValue(s[0]) * 10 + DigitValue(s[1])
    ensures |s| == 3 ==> DecimalValue(s) == (DigitValue(s[0]) * 10 + DigitValue(s[1])) * 10 + DigitValue(s[2])
  {
    var p1 := s[..1];
    assert p1[..0] == [] && p1[0] == s[0];
    assert DecimalValue(p1) == DigitValue(s[0]);
    if |s| >= 2 {
      var p2 := s[..2];
      assert p2[..1] == p1 && p2[1] == s[1];
      assert DecimalValue(p2) == DigitValue(s[0]) * 10 + DigitValue(s[1]);
      if |s| == 3 {
        assert s[..2] == p2;
      } else {
        assert s == p2;
      }
    } else {
      assert s == p1;
    }
  }

  lemma OctetCanonical(s: string, o: nat)
    requires ParseOctet(s) == Some(o)
    ensures o < 256 && FormatOctet(o) == s
  {
    DecimalValueSteps(s);
    var d0 := DigitValue(s[0]);
    assert DigitChar(d0) == s[0];
    if |s| == 3 {
      var d1, d2 := DigitValue(s[1]), DigitValue(s[2]);
      assert o == (d0 * 10 + d1) * 10 + d2 && d0 >= 1;
      assert o / 10 == d0 * 10 + d1 && o % 10 == d2;
      assert o / 10 / 10 == d0 && o / 10 % 10 == d1;
      assert DigitChar(d1) == s[1] && DigitChar(d2) == s[2];
      assert s == [s[0], s[1], s[2]];
    } else if |s| == 2 {
      var d1 := DigitValue(s[1]);
      assert o == d0 * 10 + d1 && d0 >= 1;
      assert o / 10 == d0 && o % 10 == d1;
      assert DigitChar(d1) == s[1];
      assert s == [s[0], s[1]];
    } else {
      assert s == [s[0]];
    }
  }

  lemma FormatOctetHasNoDot(o: nat)
    requires o < 256
    ensures '.' !in FormatOctet(o)
  {
  }

  lemma OctetsRecombine(a: Addr)
    ensures forall i :: 0 <= i < 4 ==> OctetsOf(a)[i] < 256
    ensures Octets(OctetsOf(a)[0], OctetsOf(a)[1], OctetsOf(a)[2], OctetsOf(a)[3]) == a
  {
    var q1 := a / 256;
    var q2 := q1 / 256;
    assert a == q1 * 256 + a % 256;
    assert q1 == q2 * 256 + q1 % 256;
    assert q2 == q2 / 256 * 256 + q2 % 256;
  }

  lemma OctetsSplit(a: nat, b: nat, c: nat, d: nat)
    requires a < 256 && b < 256 && c < 256 && d < 256
    ensures OctetsOf(Octets(a, b, c, d)) == [a, b, c, d]
  {
    var n := Octets(a, b, c, d);
    var q1 := (a * 256 + b) * 256 + c;
    var q2 := a * 256 + b;
    DivUnique(n, 256, q1);
    DivUnique(q1, 256, q2);
    DivUnique(q2, 256, a);
  }

  /** Parsing the canonical form of an address gives the address back. */
  lemma RoundTrip(a: Addr)
    ensures Parse(Format(a)) == Some(a)
  {
    var o := OctetsOf(a);
    OctetsRecombine(a);
    var parts := [FormatOctet(o[0]), FormatOctet(o[1]), FormatOctet(o[2]), FormatOctet(o[3])];
    forall i | 0 <= i < 4 ensures '.' !in parts[i] {
      FormatOctetHasNoDot(o[i]);
    }
    SplitJoin(parts, '.');
    JoinFour(parts[0], parts[1], parts[2], parts[3]);
    OctetRoundTrip(o[0]);
    OctetRoundTrip(o[1]);
    OctetRoundTrip(o[2]);
    OctetRoundTrip(o[3]);
  }

  /** The parser is strict: a string it accepts is already the canonical form of
      its address, so `str(ip)` gives back exactly the text that was parsed. */
  lemma Canonical(s: string, a: Addr)
    requires Parse(s) == Some(a)
    ensures Format(a) == s
  {
    var parts := Split(s, '.');
    var o0, o1, o2, o3 := ParseOctet(parts[0]).value, ParseOctet(parts[1]).value,
                          ParseOctet(parts[2]).value, ParseOctet(parts[3]).value;
    OctetCanonical(parts[0], o0);
    OctetCanonical(parts[1], o1);
    OctetCanonical(parts[2], o2);
    OctetCanonical(parts[3], o3);
    OctetsSplit(o0, o1, o2, o3);
    assert parts == [FormatOctet(o0), FormatOctet(o1), FormatOctet(o2), FormatOctet(o3)];
    JoinSplit(s, '.');
    JoinFour(parts[0], parts[1], parts[2], parts[3]);
  }

  /** `'.'.join` of four pieces. */
  lemma JoinFour(p0: string, p1: string, p2: string, p3: string)
    ensures Join([p0, p1, p2, p3], '.') == p0 + "." + p1 + "." + p2 + "." + p3
  {
    assert [p0, p1, p2, p3][1..] == [p1, p2, p3];
    assert [p1, p2, p3][1..] == [p2, p3];
    assert [p2, p3][1..] == [p3];
    assert Join([p3], '.') == p3;
    assert Join([p2, p3], '.') == p2 + "." + p3;
    assert Join([p1, p2, p3], '.') == p1 + "." + (p2 + "." + p3);
  }

  /** A dotted quad spelled octet by octet is the canonical form of the address
      with those octets, and parses back to it. */
  lemma DottedQuad(a: Addr, o0: nat, o1: nat, o2: nat, o3: nat, s: string)
    requires o0 < 256 && o1 < 256 && o2 < 256 && o3 < 256
    requires OctetsOf(a) == [o0, o1, o2, o3]
    requires s == FormatOctet(o0) + "." + FormatOctet(o1) + "." + FormatOctet(o2) + "." + FormatOctet(o3)
    ensures Format(a) == s && Parse(s) == Some(a)
  {
    RoundTrip(a);
  }

  lemma FormatInjective(a: Addr, b: Addr)
    ensures Format(a) == Format(b) <==> a == b
  {
    RoundTrip(a);
    RoundTrip(b);
  }

  // ---------------------------------------------------------------- networks

  function Pow2(k: nat): (r: nat)
    ensures r >= 1
  {
    if k == 0 then 1 else 2 * Pow2(k - 1)
  }

  /** An `IPv4Network`: a base address and a prefix length of at most 32 bits. */
  datatype Network = Network(base: Addr, prefixLen: nat)

  /** The number of addresses a prefix of this length covers. */
  function HostCount(prefixLen: nat): nat
    requires prefixLen <= 32
  {
    Pow2(32 - prefixLen)
  }

  /** What `ip_network(..)` accepts in its default strict mode: no host bits set. */
  predicate ValidNetwork(n: Network) {
    n.prefixLen <= 32 && n.base % HostCount(n.prefixLen) == 0
  }

  /** `ip in network`: the address agrees with the base on the first `prefixLen` bits. */
  predicate Contains(n: Network, a: Addr) {
    n.prefixLen <= 32 && a / HostCount(n.prefixLen) == n.base / HostCount(n.prefixLen)
  }

  lemma MulMonotonic(x: nat, y: nat, h: nat)
    requires x <= y
    ensures x * h <= y * h
  {
    if x < y {
      MulMonotonic(x, y - 1, h);
      assert y * h == (y - 1) * h + h;
    }
  }

  /** Euclidean division is determined by its bounds. */
  lemma DivUnique(a: nat, h: nat, q: nat)
    requires h >= 1
    ensures a / h == q <==> q * h <= a < q * h + h
  {
    var q', r' := a / h, a % h;
    assert a == q' * h + r' && 0 <= r' < h;
    if q * h <= a < q * h + h {
      if q' < q {
        MulMonotonic(q' + 1, q, h);
      } else if q' > q {
        MulMonotonic(q + 1, q', h);
      }
    }
  }

  /** A network is the contiguous block of addresses from its base upwards. */
  lemma ContainsRange(n: Network, a: Addr)
    requires ValidNetwork(n)
    ensures Contains(n, a) <==> n.base <= a < n.base + HostCount(n.prefixLen)
  {
    var h := HostCount(n.prefixLen);
    var q := n.base / h;
    assert n.base == q * h;
    DivUnique(a, h, q);
  }

  // ---------------------------------------------------------------- special-purpose ranges

  // The entries of the IANA IPv4 Special-Purpose Address Registry (section 2.2.2
  // of RFC 6890) that `IPv4Address.is_private` tests.
  const ThisNetwork := Network(Octets(0, 0, 0, 0), 8)  // "this network" (section 3.2.1.3 of RFC 1122)
  const PrivateUse10 := Network(Octets(10, 0, 0, 0), 8)  // private use (RFC 1918)
  const Loopback := Network(Octets(127, 0, 0, 0), 8)  // loopback (section 3.2.1.3 of RFC 1122)
  const LinkLocal := Network(Octets(169, 254, 0, 0), 16)  // link local (RFC 3927)
  const PrivateUse172 := Network(Octets(172, 16, 0, 0), 12)  // private use (RFC 1918)
  const ProtocolAssignments := Network(Octets(192, 0, 0, 0), 29)  // IETF protocol assignments (RFC 6890), as the table lists it
  const Nat64Discovery := Network(Octets(192, 0, 0, 170), 31)  // NAT64/DNS64 discovery (RFC 7050)
  const Documentation1 := Network(Octets(192, 0, 2, 0), 24)  // documentation, TEST-NET-1 (RFC 5737)
  const PrivateUse192 := Network(Octets(192, 168, 0, 0), 16)  // private use (RFC 1918)
  const Benchmarking := Network(Octets(198, 18, 0, 0), 15)  // benchmarking (RFC 2544)
  const Documentation2 := Network(Octets(198, 51, 100, 0), 24)  // documentation, TEST-NET-2 (RFC 5737)
  const Documentation3 := Network(Octets(203, 0, 113, 0), 24)  // documentation, TEST-NET-3 (RFC 5737)
  const ReservedClassE := Network(Octets(240, 0, 0, 0), 4)  // reserved (section 4 of RFC 1112)
  const LimitedBroadcast := Network(Octets(255, 255, 255, 255), 32)  // limited broadcast (RFC 919)

  /** `_IPv4Constants._private_networks`. */
  const PrivateNetworks: seq<Network> := [
    ThisNetwork,
    PrivateUse10,
    Loopback,
    LinkLocal,
    PrivateUse172,
    ProtocolAssignments,
    Nat64Discovery,
    Documentation1,
    PrivateUse192,
    Benchmarking,
    Documentation2,
    Documentation3,
    ReservedClassE,
    LimitedBroadcast
  ]

  /** `any(ip in net for net in nets)`. */
  predicate InAny(nets: seq<Network>, a: Addr) {
    exists i :: 0 <= i < |nets| && Contains(nets[i], a)
  }

  /** `IPv4Address.is_private`. */
  predicate IsPrivate(a: Addr) {
    InAny(PrivateNetworks, a)
  }

  /** `IPv4Address.is_loopback`. */
  predicate IsLoopback(a: Addr) {
    Contains(Loopback, a)
  }

  /** `IPv4Address.is_link_local`. */
  predicate IsLinkLocal(a: Addr) {
    Contains(LinkLocal, a)
  }

  /** Inclusive address range, first and last address written as dotted quads. */
  predicate Between(a: Addr, first: Addr, last: Addr) {
    first <= a <= last
  }

  lemma HostCounts()
    ensures HostCount(4) == 0x1000_0000 && HostCount(8) == 0x100_0000
    ensures HostCount(12) == 0x10_0000 && HostCount(15) == 0x2_0000 && HostCount(16) == 0x1_0000
    ensures HostCount(24) == 0x100 && HostCount(29) == 8 && HostCount(31) == 2 && HostCount(32) == 1
  {
    assert Pow2(8) == 0x100;
    assert Pow2(16) == 0x1_0000;
    assert Pow2(17) == 0x2_0000;
    assert Pow2(20) == 0x10_0000;
    assert Pow2(24) == 0x100_0000;
  }

  // Each registry entry, read as the block of addresses it covers.

  lemma SpecialPurposeRangesA(a: Addr)
    ensures Contains(ThisNetwork, a) <==> Between(a, Octets(0, 0, 0, 0), Octets(0, 255, 255, 255))
    ensures Contains(PrivateUse10, a) <==> Between(a, Octets(10, 0, 0, 0), Octets(10, 255, 255, 255))
  {
    HostCounts();
    ContainsRange(ThisNetwork, a);
    ContainsRange(PrivateUse10, a);
  }

  lemma SpecialPurposeRangesB(a: Addr)
    ensures Contains(Loopback, a) <==> Between(a, Octets(127, 0, 0, 0), Octets(127, 255, 255, 255))
    ensures Contains(LinkLocal, a) <==> Between(a, Octets(169, 254, 0, 0), Octets(169, 254, 255, 255))
  {
    HostCounts();
    ContainsRange(Loopback, a);
    ContainsRange(LinkLocal, a);
  }

  lemma SpecialPurposeRangesC(a: Addr)
    ensures Contains(PrivateUse172, a) <==> Between(a, Octets(172, 16, 0, 0), Octets(172, 31, 255, 255))
    ensures Contains(ProtocolAssignments, a) <==> Between(a, Octets(192, 0, 0, 0), Octets(192, 0, 0, 7))
  {
    HostCounts();
    ContainsRange(PrivateUse172, a);
    ContainsRange(ProtocolAssignments, a);
  }

  lemma SpecialPurposeRangesD(a: Addr)
    ensures Contains(Nat64Discovery, a) <==> Between(a, Octets(192, 0, 0, 170), Octets(192, 0, 0, 171))
    ensures Contains(Documentation1, a) <==> Between(a, Octets(192, 0, 2, 0), Octets(192, 0, 2, 255))
  {
    HostCounts();
    ContainsRange(Nat64Discovery, a);
    ContainsRange(Documentation1, a);
  }

  lemma SpecialPurposeRangesE(a: Addr)
    ensures Contains(PrivateUse192, a) <==> Between(a, Octets(192, 168, 0, 0), Octets(192, 168, 255, 255))
    ensures Contains(Benchmarking, a) <==> Between(a, Octets(198, 18, 0, 0), Octets(198, 19, 255, 255))
  {
    HostCounts();
    ContainsRange(PrivateUse192, a);
    ContainsRange(Benchmarking, a);
  }

  lemma SpecialPurposeRangesF(a: Addr)
    ensures Contains(Documentation2, a) <==> Between(a, Octets(198, 51, 100, 0), Octets(198, 51, 100, 255))
    ensures Contains(Documentation3, a) <==> Between(a, Octets(203, 0, 113, 0), Octets(203, 0, 113, 255))
  {
    HostCounts();
    ContainsRange(Documentation2, a);
    ContainsRange(Documentation3, a);
  }

  lemma SpecialPurposeRangesG(a: Addr)
    ensures Contains(ReservedClassE, a) <==> Between(a, Octets(240, 0, 0, 0), Octets(255, 255, 255, 255))
    ensures Contains(LimitedBroadcast, a) <==> Between(a, Octets(255, 255, 255, 255), Octets(255, 255, 255, 255))
  {
    HostCounts();
    ContainsRange(ReservedClassE, a);
    ContainsRange(LimitedBroadcast, a);
  }

  /** `is_private` is membership in these address ranges (the last table entry,
      255.255.255.255/32, lies inside 240.0.0.0/4). */
  lemma PrivateAsRanges(a: Addr)
    ensures IsPrivate(a) <==>
      || Between(a, Octets(0, 0, 0, 0), Octets(0, 255, 255, 255))
      || Between(a, Octets(10, 0, 0, 0), Octets(10, 255, 255, 255))
      || Between(a, Octets(127, 0, 0, 0), Octets(127, 255, 255, 255))
      || Between(a, Octets(169, 254, 0, 0), Octets(169, 254, 255, 255))
      || Between(a, Octets(172, 16, 0, 0), Octets(172, 31, 255, 255))
      || Between(a, Octets(192, 0, 0, 0), Octets(192, 0, 0, 7))
      || Between(a, Octets(192, 0, 0, 170), Octets(192, 0, 0, 171))
      || Between(a, Octets(192, 0, 2, 0), Octets(192, 0, 2, 255))
      || Between(a, Octets(192, 168, 0, 0), Octets(192, 168, 255, 255))
      || Between(a, Octets(198, 18, 0, 0), Octets(198, 19, 255, 255))
      || Between(a, Octets(198, 51, 100, 0), Octets(198, 51, 100, 255))
      || Between(a, Octets(203, 0, 113, 0), Octets(203, 0, 113, 255))
      || Between(a, Octets(240, 0, 0, 0), Octets(255, 255, 255, 255))
  {
    SpecialPurposeRangesA(a);
    SpecialPurposeRangesB(a);
    SpecialPurposeRangesC(a);
    SpecialPurposeRangesD(a);
    SpecialPurposeRangesE(a);
    SpecialPurposeRangesF(a);
    SpecialPurposeRangesG(a);
    var nets := PrivateNetworks;
    if IsPrivate(a) {
      var i :| 0 <= i < |nets| && Contains(nets[i], a);
      assert i in {0, 1, 2, 3, 4, 5, 6, 7, 8, 9, 10, 11, 12, 13};
    } else {
      assert !Contains(nets[0], a);
      assert !Contains(nets[1], a);
      assert !Contains(nets[2], a);
      assert !Contains(nets[3], a);
      assert !Contains(nets[4], a);
      assert !Contains(nets[5], a);
      assert !Contains(nets[6], a);
      assert !Contains(nets[7], a);
      assert !Contains(nets[8], a);
      assert !Contains(nets[9], a);
      assert !Contains(nets[10], a);
      assert !Contains(nets[11], a);
      assert !Contains(nets[12], a);
      assert !Contains(nets[13], a);
    }
  }

  /** Loopback and link-local addresses are already private, so for IPv4 the
      reserved layer is `is_private` alone. */
  lemma LoopbackAndLinkLocalArePrivate(a: Addr)
    ensures IsLoopback(a) ==> IsPrivate(a)
    ensures IsLinkLocal(a) ==> IsPrivate(a)
  {
    assert PrivateNetworks[2] == Loopback && PrivateNetworks[3] == LinkLocal;
  }
}
