/** `is_public_ip`: whether an address found in an event is worth an analyst's
    attention. The rule layers are tried in a fixed order and the first that
    matches decides: the organisation's own private blocks, then the list of
    well-known public DNS resolvers, then the reserved ranges of the address
    library, and otherwise the address is public. Anything that is not an
    address is not public. */
module Classifier {
  import opened Wrappers
  import opened Json
  import opened Text
  import opened Ipv4

  /** `CUSTOM_PRIVATE_RANGES`. */
  const CustomPrivateRanges: seq<Network> := [
    Network(Octets(20, 20, 20, 0), 24),
    Network(Octets(192, 168, 0, 0), 16)
  ]

  /** `COMMON_DNS_SERVERS`, compared as text with `str(ip)`. */
  const CommonDnsServers: seq<string> := [
    "1.1.1.1", "1.1.1.3", "1.0.0.1", "8.8.8.8", "8.8.4.4", "9.9.9.9", "149.112.112.112",
    "208.67.222.222", "208.67.220.220", "64.6.64.6", "64.6.65.6", "185.228.168.9",
    "185.228.169.9", "76.76.19.19", "76.76.2.0"
  ]

  /** The addresses the entries of `CommonDnsServers` spell, in the same order. */
  ghost const ResolverAddresses: seq<Addr> := [
    Octets(1, 1, 1, 1), Octets(1, 1, 1, 3), Octets(1, 0, 0, 1), Octets(8, 8, 8, 8),
    Octets(8, 8, 4, 4), Octets(9, 9, 9, 9), Octets(149, 112, 112, 112),
    Octets(208, 67, 222, 222), Octets(208, 67, 220, 220), Octets(64, 6, 64, 6),
    Octets(64, 6, 65, 6), Octets(185, 228, 168, 9), Octets(185, 228, 169, 9),
    Octets(76, 76, 19, 19), Octets(76, 76, 2, 0)
  ]

  /** A parsed address. IPv6 is opaque: only whether the library calls it
      private, loopback or link-local is kept. */
  datatype Address = V4(addr: Addr) | V6(reserved: bool)

  /** The IPv6 half of `ipaddress.ip_address`, which this model does not spell
      out: for a text, `None` when it is no IPv6 address and otherwise whether the
      address is reserved; for an integer in [2^32, 2^128), whether it is reserved. */
  datatype Ipv6Oracle = Ipv6Oracle(fromText: string -> Option<bool>, fromInt: nat -> bool)

  const Two32: nat := 0x1_0000_0000
  const Two128: nat := 0x1_0000_0000_0000_0000_0000_0000_0000_0000

  /** `ipaddress.ip_address(v)` on whatever the event held, with `None` for the
      `ValueError` it raises. Integers are addresses (and `bool` is an integer in
      Python); a text is tried as IPv4 first and as IPv6 only if it holds a colon,
      which every IPv6 text does; `None`, floats, lists and dicts never parse. */
  function IpAddress(v: JsonValue, v6: Ipv6Oracle): Option<Address> {
    match v
    case JString(s) =>
      if Parse(s).Some? then Some(V4(Parse(s).value))
      else if ':' in s then
        match v6.fromText(s)
        case Some(reserved) => Some(V6(reserved))
        case None => None
      else None
    case JInt(n) =>
      if 0 <= n < Two32 then Some(V4(n))
      else if Two32 <= n < Two128 then Some(V6(v6.fromInt(n)))
      else None
    case JBool(b) => Some(V4(if b then 1 else 0))
    case _ => None
  }

  /** The layer of the rule set that decides an address. */
  datatype Layer = CustomPrivate | KnownResolver | Reserved | DefaultPublic

  /** The standard reserved classification:
      `ip.is_private or ip.is_loopback or ip.is_link_local`. */
  predicate IsReserved(a: Addr) {
    IsPrivate(a) || IsLoopback(a) || IsLinkLocal(a)
  }

  /** First match wins. An IPv6 address is in no IPv4 network and its text
      always holds a colon, so only the reserved layer can apply to it. */
  function Decide(a: Address): Layer {
    match a
    case V4(x) =>
      if InAny(CustomPrivateRanges, x) then CustomPrivate
      else if Format(x) in CommonDnsServers then KnownResolver
      else if IsReserved(x) then Reserved
      else DefaultPublic
    case V6(reserved) =>
      if reserved then Reserved else DefaultPublic
  }

  /** `is_public_ip(v)`. */
  function IsPublicIp(v: JsonValue, v6: Ipv6Oracle): bool {
    match IpAddress(v, v6)
    case None => false
    case Some(a) => Decide(a) == DefaultPublic
  }

  // ---------------------------------------------------------------- the custom layer

  /** The two custom blocks, as address ranges. */
  lemma CustomRangesAsBlocks(a: Addr)
    ensures InAny(CustomPrivateRanges, a) <==>
      || Between(a, Octets(20, 20, 20, 0), Octets(20, 20, 20, 255))
      || Between(a, Octets(192, 168, 0, 0), Octets(192, 168, 255, 255))
  {
    HostCounts();
    var nets := CustomPrivateRanges;
    ContainsRange(nets[0], a);
    ContainsRange(nets[1], a);
    if InAny(nets, a) {
      var i :| 0 <= i < |nets| && Contains(nets[i], a);
      assert i == 0 || i == 1;
    }
  }

  /** Every address of a custom block is not public, whatever value it came
      from, because that layer is tried first. */
  lemma CustomBlocksNeverPublic(v: JsonValue, v6: Ipv6Oracle, a: Addr)
    requires IpAddress(v, v6) == Some(V4(a))
    requires || Between(a, Octets(20, 20, 20, 0), Octets(20, 20, 20, 255))
             || Between(a, Octets(192, 168, 0, 0), Octets(192, 168, 255, 255))
    ensures Decide(V4(a)) == CustomPrivate
    ensures !IsPublicIp(v, v6)
  {
    CustomRangesAsBlocks(a);
  }

  /** 192.168.0.0/16 is also reserved, yet it is the custom layer, tried
      first, that decides it. */
  lemma CustomBeforeReserved(a: Addr)
    requires Between(a, Octets(192, 168, 0, 0), Octets(192, 168, 255, 255))
    ensures IsReserved(a) && Decide(V4(a)) == CustomPrivate
  {
    CustomRangesAsBlocks(a);
    PrivateAsRanges(a);
  }

  /** 20.20.20.0/24 is neither reserved nor a listed resolver, so the custom
      layer is the only thing that keeps it from being public. */
  lemma CustomOnlyGuard(a: Addr)
    requires Between(a, Octets(20, 20, 20, 0), Octets(20, 20, 20, 255))
    ensures !IsReserved(a) && Format(a) !in CommonDnsServers && Decide(V4(a)) == CustomPrivate
  {
    CustomRangesAsBlocks(a);
    PrivateAsRanges(a);
    LoopbackAndLinkLocalArePrivate(a);
    UnlistedBlock(a);
  }

  lemma UnlistedBlock(a: Addr)
    requires Between(a, Octets(20, 20, 20, 0), Octets(20, 20, 20, 255))
    ensures Format(a) !in CommonDnsServers
  {
    ResolverMembership(a);
  }

  // ---------------------------------------------------------------- the resolver layer

  // The spellings of the resolver addresses, a few per lemma so that each
  // proof stays small.

  lemma ResolverSpellingsA(a: Addr)
    ensures OctetsOf(a) == [1, 1, 1, 1] ==> Format(a) == "1.1.1.1"
    ensures OctetsOf(a) == [1, 1, 1, 3] ==> Format(a) == "1.1.1.3"
    ensures OctetsOf(a) == [1, 0, 0, 1] ==> Format(a) == "1.0.0.1"
  {
    if OctetsOf(a) == [1, 1, 1, 1] {
      DottedQuad(a, 1, 1, 1, 1, "1.1.1.1");
    }
    if OctetsOf(a) == [1, 1, 1, 3] {
      DottedQuad(a, 1, 1, 1, 3, "1.1.1.3");
    }
    if OctetsOf(a) == [1, 0, 0, 1] {
      DottedQuad(a, 1, 0, 0, 1, "1.0.0.1");
    }
  }

  lemma ResolverSpellingsB(a: Addr)
    ensures OctetsOf(a) == [8, 8, 8, 8] ==> Format(a) == "8.8.8.8"
    ensures OctetsOf(a) == [8, 8, 4, 4] ==> Format(a) == "8.8.4.4"
    ensures OctetsOf(a) == [9, 9, 9, 9] ==> Format(a) == "9.9.9.9"
  {
    if OctetsOf(a) == [8, 8, 8, 8] {
      DottedQuad(a, 8, 8, 8, 8, "8.8.8.8");
    }
    if OctetsOf(a) == [8, 8, 4, 4] {
      DottedQuad(a, 8, 8, 4, 4, "8.8.4.4");
    }
    if OctetsOf(a) == [9, 9, 9, 9] {
      DottedQuad(a, 9, 9, 9, 9, "9.9.9.9");
    }
  }

  lemma ResolverSpellingsC(a: Addr)
    ensures OctetsOf(a) == [149, 112, 112, 112] ==> Format(a) == "149.112.112.112"
  {
    if OctetsOf(a) == [149, 112, 112, 112] {
      DottedQuad(a, 149, 112, 112, 112, "149.112.112.112");
    }
  }

  lemma ResolverSpellingsD(a: Addr)
    ensures OctetsOf(a) == [208, 67, 222, 222] ==> Format(a) == "208.67.222.222"
  {
    if OctetsOf(a) == [208, 67, 222, 222] {
      DottedQuad(a, 208, 67, 222, 222, "208.67.222.222");
    }
  }

  lemma ResolverSpellingsE(a: Addr)
    ensures OctetsOf(a) == [208, 67, 220, 220] ==> Format(a) == "208.67.220.220"
  {
    if OctetsOf(a) == [208, 67, 220, 220] {
      DottedQuad(a, 208, 67, 220, 220, "208.67.220.220");
    }
  }

  lemma ResolverSpellingsF(a: Addr)
    ensures OctetsOf(a) == [64, 6, 64, 6] ==> Format(a) == "64.6.64.6"
    ensures OctetsOf(a) == [64, 6, 65, 6] ==> Format(a) == "64.6.65.6"
  {
    if OctetsOf(a) == [64, 6, 64, 6] {
      DottedQuad(a, 64, 6, 64, 6, "64.6.64.6");
    }
    if OctetsOf(a) == [64, 6, 65, 6] {
      DottedQuad(a, 64, 6, 65, 6, "64.6.65.6");
    }
  }

  lemma ResolverSpellingsG(a: Addr)
    ensures OctetsOf(a) == [185, 228, 168, 9] ==> Format(a) == "185.228.168.9"
    ensures OctetsOf(a) == [185, 228, 169, 9] ==> Format(a) == "185.228.169.9"
  {
    if OctetsOf(a) == [185, 228, 168, 9] {
      DottedQuad(a, 185, 228, 168, 9, "185.228.168.9");
    }
    if OctetsOf(a) == [185, 228, 169, 9] {
      DottedQuad(a, 185, 228, 169, 9, "185.228.169.9");
    }
  }

  lemma ResolverSpellingsH(a: Addr)
    ensures OctetsOf(a) == [76, 76, 19, 19] ==> Format(a) == "76.76.19.19"
    ensures OctetsOf(a) == [76, 76, 2, 0] ==> Format(a) == "76.76.2.0"
  {
    if OctetsOf(a) == [76, 76, 19, 19] {
      DottedQuad(a, 76, 76, 19, 19, "76.76.19.19");
    }
    if OctetsOf(a) == [76, 76, 2, 0] {
      DottedQuad(a, 76, 76, 2, 0, "76.76.2.0");
    }
  }

  /** Entry `k` of the resolver list spells entry `k` of `ResolverAddresses`. */
  lemma ResolverText(k: nat)
    requires k < 15
    ensures |CommonDnsServers| == |ResolverAddresses| == 15
    ensures CommonDnsServers[k] == Format(ResolverAddresses[k])
  {
    if k < 4 {
      ResolverTextA(k);
    } else if k < 8 {
      ResolverTextB(k);
    } else if k < 12 {
      ResolverTextC(k);
    } else {
      ResolverTextD(k);
    }
  }

  lemma ResolverTextA(k: nat)
    requires 0 <= k < 4
    ensures CommonDnsServers[k] == Format(ResolverAddresses[k])
  {
    var a := ResolverAddresses[k];
    if k == 0 {
      OctetsSplit(1, 1, 1, 1);
      ResolverSpellingsA(a);
    } else if k == 1 {
      OctetsSplit(1, 1, 1, 3);
      ResolverSpellingsA(a);
    } else if k == 2 {
      OctetsSplit(1, 0, 0, 1);
      ResolverSpellingsA(a);
    } else {
      OctetsSplit(8, 8, 8, 8);
      ResolverSpellingsB(a);
    }
  }

  lemma ResolverTextB(k: nat)
    requires 4 <= k < 8
    ensures CommonDnsServers[k] == Format(ResolverAddresses[k])
  {
    var a := ResolverAddresses[k];
    if k == 4 {
      OctetsSplit(8, 8, 4, 4);
      ResolverSpellingsB(a);
    } else if k == 5 {
      OctetsSplit(9, 9, 9, 9);
      ResolverSpellingsB(a);
    } else if k == 6 {
      OctetsSplit(149, 112, 112, 112);
      ResolverSpellingsC(a);
    } else {
      OctetsSplit(208, 67, 222, 222);
      ResolverSpellingsD(a);
    }
  }

  lemma ResolverTextC(k: nat)
    requires 8 <= k < 12
    ensures CommonDnsServers[k] == Format(ResolverAddresses[k])
  {
    var a := ResolverAddresses[k];
    if k == 8 {
      OctetsSplit(208, 67, 220, 220);
      ResolverSpellingsE(a);
    } else if k == 9 {
      OctetsSplit(64, 6, 64, 6);
      ResolverSpellingsF(a);
    } else if k == 10 {
      OctetsSplit(64, 6, 65, 6);
      ResolverSpellingsF(a);
    } else {
      OctetsSplit(185, 228, 168, 9);
      ResolverSpellingsG(a);
    }
  }

  lemma ResolverTextD(k: nat)
    requires 12 <= k < 15
    ensures CommonDnsServers[k] == Format(ResolverAddresses[k])
  {
    var a := ResolverAddresses[k];
    if k == 12 {
      OctetsSplit(185, 228, 169, 9);
      ResolverSpellingsG(a);
    } else if k == 13 {
      OctetsSplit(76, 76, 19, 19);
      ResolverSpellingsH(a);
    } else {
      OctetsSplit(76, 76, 2, 0);
      ResolverSpellingsH(a);
    }
  }

  /** Stretches of the address space that hold no custom block and no reserved range. */
  predicate InRoutableSpan(a: Addr)
  {
    Between(a, Octets(1, 0, 0, 0), Octets(9, 255, 255, 255)) ||
    Between(a, Octets(11, 0, 0, 0), Octets(19, 255, 255, 255)) ||
    Between(a, Octets(21, 0, 0, 0), Octets(126, 255, 255, 255)) ||
    Between(a, Octets(128, 0, 0, 0), Octets(168, 255, 255, 255)) ||
    Between(a, Octets(173, 0, 0, 0), Octets(191, 255, 255, 255)) ||
    Between(a, Octets(204, 0, 0, 0), Octets(239, 255, 255, 255))
  }

  lemma RoutableSpans(a: Addr)
    requires InRoutableSpan(a)
    ensures !InAny(CustomPrivateRanges, a) && !IsReserved(a)
  {
    CustomRangesAsBlocks(a);
    PrivateAsRanges(a);
    LoopbackAndLinkLocalArePrivate(a);
  }

  /** Entry `k` of the resolver list is outside the custom blocks and the reserved ranges. */
  lemma ResolverRoutable(k: nat)
    requires k < 15
    ensures !InAny(CustomPrivateRanges, ResolverAddresses[k]) && !IsReserved(ResolverAddresses[k])
  {
    assert InRoutableSpan(ResolverAddresses[k]);
    RoutableSpans(ResolverAddresses[k]);
  }

  /** Every entry of the resolver list is the canonical text of an address, so
      comparing `str(ip)` with the list is comparing addresses. */
  lemma ResolverMembership(a: Addr)
    ensures Format(a) in CommonDnsServers <==> a in ResolverAddresses
  {
    if Format(a) in CommonDnsServers {
      var i :| 0 <= i < |CommonDnsServers| && CommonDnsServers[i] == Format(a);
      ResolverText(i);
      FormatInjective(a, ResolverAddresses[i]);
    }
    if a in ResolverAddresses {
      var i :| 0 <= i < |ResolverAddresses| && ResolverAddresses[i] == a;
      ResolverText(i);
    }
  }

  /** A listed resolver, given as its text, is not public; it lies outside the
      custom blocks and the reserved ranges, so it is the resolver layer that
      excludes it even though the address is globally routable. */
  lemma ResolversNeverPublic(i: nat, v6: Ipv6Oracle)
    requires i < |CommonDnsServers|
    ensures Parse(CommonDnsServers[i]) == Some(ResolverAddresses[i])
    ensures !InAny(CustomPrivateRanges, ResolverAddresses[i]) && !IsReserved(ResolverAddresses[i])
    ensures Decide(V4(ResolverAddresses[i])) == KnownResolver
    ensures !IsPublicIp(JString(CommonDnsServers[i]), v6)
  {
    var a := ResolverAddresses[i];
    ResolverText(i);
    ResolverRoutable(i);
    RoundTrip(a);
    ListedNeverPublic(i, a, v6);
  }

  /** The resolver layer excludes a listed text that parses, unless a custom
      block took the address first. */
  lemma ListedNeverPublic(k: nat, a: Addr, v6: Ipv6Oracle)
    requires k < |CommonDnsServers| && Parse(CommonDnsServers[k]) == Some(a)
    requires !InAny(CustomPrivateRanges, a)
    ensures Decide(V4(a)) == KnownResolver && !IsPublicIp(JString(CommonDnsServers[k]), v6)
  {
    var t := CommonDnsServers[k];
    Canonical(t, a);
    assert Format(a) in CommonDnsServers by {
      assert CommonDnsServers[k] == Format(a);
    }
  }

  // ---------------------------------------------------------------- the whole rule set

  /** For a text that parses as IPv4, the text itself is what the resolver list
      is compared with, and past the first two layers the address is public
      exactly when it is not private, not loopback and not link-local. */
  lemma PublicDottedQuad(s: string, a: Addr, v6: Ipv6Oracle)
    requires Parse(s) == Some(a)
    ensures IsPublicIp(JString(s), v6) <==>
      !InAny(CustomPrivateRanges, a) && s !in CommonDnsServers
      && !(IsPrivate(a) || IsLoopback(a) || IsLinkLocal(a))
  {
    Canonical(s, a);
  }

  /** Fail closed: a value that is no address is never public, the empty
      text a missing field defaults to included. */
  lemma NonAddressesNeverPublic(v: JsonValue, v6: Ipv6Oracle)
    requires || (v.JString? && Parse(v.s).None? && ':' !in v.s)
             || (v.JInt? && (v.i < 0 || v.i >= Two128))
             || v.JNull? || v.JFloat? || v.JArray? || v.JObject?
    ensures IpAddress(v, v6).None? && !IsPublicIp(v, v6)
  {
  }

  lemma EmptyTextNeverPublic(v6: Ipv6Oracle)
    ensures !IsPublicIp(JString(""), v6)
  {
    assert Split("", '.') == [""];
  }

  /** A reserved address is never public, whichever layer decides it. */
  lemma ReservedNeverPublic(v: JsonValue, v6: Ipv6Oracle, a: Addr)
    requires IpAddress(v, v6) == Some(V4(a)) && IsReserved(a)
    ensures Decide(V4(a)) != DefaultPublic && !IsPublicIp(v, v6)
  {
  }

  /** The rule set as one reference definition on address ranges: an IPv4
      address is public exactly when it is outside both custom blocks, is not a
      listed resolver and is outside every reserved range. */
  lemma PublicAsRanges(a: Addr)
    ensures Decide(V4(a)) == DefaultPublic <==>
      && !Between(a, Octets(20, 20, 20, 0), Octets(20, 20, 20, 255))
      && a !in ResolverAddresses
      && !Between(a, Octets(0, 0, 0, 0), Octets(0, 255, 255, 255))
      && !Between(a, Octets(10, 0, 0, 0), Octets(10, 255, 255, 255))
      && !Between(a, Octets(127, 0, 0, 0), Octets(127, 255, 255, 255))
      && !Between(a, Octets(169, 254, 0, 0), Octets(169, 254, 255, 255))
      && !Between(a, Octets(172, 16, 0, 0), Octets(172, 31, 255, 255))
      && !Between(a, Octets(192, 0, 0, 0), Octets(192, 0, 0, 7))
      && !Between(a, Octets(192, 0, 0, 170), Octets(192, 0, 0, 171))
      && !Between(a, Octets(192, 0, 2, 0), Octets(192, 0, 2, 255))
      && !Between(a, Octets(192, 168, 0, 0), Octets(192, 168, 255, 255))
      && !Between(a, Octets(198, 18, 0, 0), Octets(198, 19, 255, 255))
      && !Between(a, Octets(198, 51, 100, 0), Octets(198, 51, 100, 255))
      && !Between(a, Octets(203, 0, 113, 0), Octets(203, 0, 113, 255))
      && !Between(a, Octets(240, 0, 0, 0), Octets(255, 255, 255, 255))
  {
    CustomRangesAsBlocks(a);
    ResolverMembership(a);
    PrivateAsRanges(a);
    LoopbackAndLinkLocalArePrivate(a);
  }

  // ---------------------------------------------------------------- examples

  lemma ResolverExample(s: string, v6: Ipv6Oracle)
    requires s == "8.8.8.8"
    ensures !IsPublicIp(JString(s), v6)
  {
    var a := Octets(8, 8, 8, 8);
    OctetsSplit(8, 8, 8, 8);
    DottedQuad(a, 8, 8, 8, 8, s);
    CustomRangesAsBlocks(a);
    assert CommonDnsServers[3] == s;
  }

  lemma CustomExamples(s: string, t: string, v6: Ipv6Oracle)
    requires s == "192.168.1.5" && t == "20.20.20.7"
    ensures !IsPublicIp(JString(s), v6) && !IsPublicIp(JString(t), v6)
  {
    var a := Octets(192, 168, 1, 5);
    OctetsSplit(192, 168, 1, 5);
    DottedQuad(a, 192, 168, 1, 5, s);
    CustomBlocksNeverPublic(JString(s), v6, a);
    var b := Octets(20, 20, 20, 7);
    OctetsSplit(20, 20, 20, 7);
    DottedQuad(b, 20, 20, 20, 7, t);
    CustomBlocksNeverPublic(JString(t), v6, b);
  }

  lemma PrivateUseExample(s: string, v6: Ipv6Oracle)
    requires s == "10.0.0.5"
    ensures !IsPublicIp(JString(s), v6)
  {
    var a := Octets(10, 0, 0, 5);
    OctetsSplit(10, 0, 0, 5);
    DottedQuad(a, 10, 0, 0, 5, s);
    InNetworkPrivateUse10(a);
    ReservedNeverPublic(JString(s), v6, a);
  }

  /** 203.0.113.9 lies in a documentation range, which the library counts as
      private, so it is not public. */
  lemma DocumentationExample(s: string, v6: Ipv6Oracle)
    requires s == "203.0.113.9"
    ensures !IsPublicIp(JString(s), v6)
  {
    var a := Octets(203, 0, 113, 9);
    OctetsSplit(203, 0, 113, 9);
    DottedQuad(a, 203, 0, 113, 9, s);
    InNetworkDocumentation3(a);
    ReservedNeverPublic(JString(s), v6, a);
  }

  lemma InNetworkPrivateUse10(a: Addr)
    requires a == Octets(10, 0, 0, 5)
    ensures IsReserved(a)
  {
    HostCounts();
    ContainsRange(PrivateUse10, a);
    assert Contains(PrivateNetworks[1], a);
  }

  lemma InNetworkDocumentation3(a: Addr)
    requires a == Octets(203, 0, 113, 9)
    ensures IsReserved(a)
  {
    HostCounts();
    ContainsRange(Documentation3, a);
    assert Contains(PrivateNetworks[11], a);
  }

  /** `true` is the integer 1, the address 0.0.0.1, inside 0.0.0.0/8. */
  lemma BooleanExample(v6: Ipv6Oracle)
    ensures IpAddress(JBool(true), v6) == Some(V4(Octets(0, 0, 0, 1)))
    ensures !IsPublicIp(JBool(true), v6)
  {
    PrivateAsRanges(1);
  }

  /** An ordinary routable address is public, as text and as an integer. */
  lemma PublicExample(s: string, n: int, v6: Ipv6Oracle)
    requires s == "93.184.216.34" && n == Octets(93, 184, 216, 34)
    ensures IsPublicIp(JString(s), v6) && IsPublicIp(JInt(n), v6)
  {
    OctetsSplit(93, 184, 216, 34);
    DottedQuad(n, 93, 184, 216, 34, s);
    RoutableAddress(n);
  }

  lemma RoutableAddress(n: Addr)
    requires n == Octets(93, 184, 216, 34)
    ensures Decide(V4(n)) == DefaultPublic
  {
    ResolverMembership(n);
    RoutableSpans(n);
  }
}
