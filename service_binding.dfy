/**
 * Service bindings: the protocol and the socket address a tracker service
 * listens on, with the port-zero check and the address classifiers used to
 * label metrics.
 *
 * The URL form of a binding (`url`, `Display`) relies on the `url` crate and is
 * not part of this model.
 */
module ServiceBindings {
  import opened Wrappers
  import opened Net
  import opened Strings

  const DUAL_STACK_IP_V4_MAPPED_V6_PREFIX: string := "::ffff:"

  datatype Protocol = UDP | HTTP | HTTPS

  /** `Display for Protocol`. */
  function ProtocolText(p: Protocol): string
  {
    match p
    case UDP => "udp"
    case HTTP => "http"
    case HTTPS => "https"
  }

  datatype IpType = Plain | V4MappedV6

  /** `Display for IpType`. */
  function IpTypeText(t: IpType): string
  {
    match t
    case Plain => "plain"
    case V4MappedV6 => "v4_mapped_v6"
  }

  datatype IpFamily = Inet | Inet6

  /** `Display for IpFamily`. */
  function IpFamilyText(f: IpFamily): string
  {
    match f
    case Inet => "inet"
    case Inet6 => "inet6"
  }

  /** The display strings tell the values apart, so each label value names one variant. */
  lemma DisplayStringsDistinct(p: Protocol, q: Protocol, s: IpType, t: IpType, f: IpFamily, g: IpFamily)
    ensures ProtocolText(p) == ProtocolText(q) ==> p == q
    ensures IpTypeText(s) == IpTypeText(t) ==> s == t
    ensures IpFamilyText(f) == IpFamilyText(g) ==> f == g
  {
    assert "udp" != "http" && "udp" != "https" && "http" != "https" by {
      assert "udp"[0] != "http"[0] && "udp"[0] != "https"[0] && |"http"| != |"https"|;
    }
    assert "plain" != "v4_mapped_v6" by { assert "plain"[0] != "v4_mapped_v6"[0]; }
    assert "inet" != "inet6" by { assert |"inet"| != |"inet6"|; }
  }

  /** `From<IpAddr> for IpFamily`. */
  function FamilyOf(ip: IpAddr): (r: IpFamily)
    ensures r == Inet <==> ip.V4?
    ensures r == Inet6 <==> ip.V6?
  {
    if ip.V4? then Inet else Inet6
  }

  datatype Error = PortZeroNotAllowed

  datatype ServiceBinding = ServiceBinding(protocol: Protocol, bindAddress: SocketAddr)
  {
    /** `bind_address_ip_family`. */
    function BindAddressIpFamily(): (r: IpFamily)
      ensures r == Inet <==> bindAddress.ip.V4?
    {
      FamilyOf(bindAddress.ip)
    }

    /** `bind_address_ip_type`: `V4MappedV6` exactly for an IPv4-mapped IPv6 address. */
    function BindAddressIpType(): (r: IpType)
      ensures r == V4MappedV6 <==> bindAddress.ip.V6? && IsIpv4Mapped(bindAddress.ip.v6)
    {
      if IsV4MappedV6(bindAddress.ip) then V4MappedV6 else Plain
    }
  }

  /** `ServiceBinding::new`: refuses port 0 and otherwise keeps what it is given. */
  function NewServiceBinding(protocol: Protocol, bindAddress: SocketAddr): (r: Result<ServiceBinding, Error>)
    ensures r.Err? <==> bindAddress.port == 0
    ensures r.Err? ==> r.error == PortZeroNotAllowed
    ensures r.Ok? ==> r.value.protocol == protocol && r.value.bindAddress == bindAddress
  {
    if bindAddress.port == 0 then Err(PortZeroNotAllowed) else Ok(ServiceBinding(protocol, bindAddress))
  }

  // ---------------------------------------------------------------------------
  // The IPv4-mapped test
  // ---------------------------------------------------------------------------

  /** `is_v4_mapped_v6` as written: an IPv6 address whose text starts with "::ffff:". */
  predicate IsV4MappedV6AsWritten(ip: IpAddr)
  {
    ip.V6? && StartsWith(Ipv6Text(ip.v6), DUAL_STACK_IP_V4_MAPPED_V6_PREFIX)
  }

  /** The intended test: an IPv6 address in `::ffff:0:0/96`. */
  predicate IsV4MappedV6(ip: IpAddr)
  {
    ip.V6? && IsIpv4Mapped(ip.v6)
  }

  /** The address `0:0:0:0:0:0:ffff:1`, which is not IPv4-mapped. */
  const NOT_MAPPED_EXAMPLE: Ipv6Bits := 0xffff_0001

  /**
   * The text test accepts `0:0:0:0:0:0:ffff:1`: its text is "::ffff:1" (the
   * six leading zero segments compress to "::"), yet it is not IPv4-mapped.
   */
  lemma TextTestAcceptsUnmappedAddress()
    ensures Ipv6Text(NOT_MAPPED_EXAMPLE) == "::ffff:1"
    ensures IsV4MappedV6AsWritten(V6(NOT_MAPPED_EXAMPLE))
    ensures !IsV4MappedV6(V6(NOT_MAPPED_EXAMPLE))
  {
    var segs := Segments(NOT_MAPPED_EXAMPLE);
    assert segs == [0, 0, 0, 0, 0, 0, 0xffff, 1];
    assert ScanZeroSpans(segs, 0, Span(0, 0), Span(0, 0)) == Span(0, 6) by {
      assert ScanZeroSpans(segs, 5, Span(0, 5), Span(0, 5)) == Span(0, 6);
    }
    assert LowerHex(0xffff) == "ffff";
    assert JoinHex(segs[6..]) == "ffff:1";
    assert JoinHex(segs[..0]) == "";
    assert "::ffff:1"[..|DUAL_STACK_IP_V4_MAPPED_V6_PREFIX|] == DUAL_STACK_IP_V4_MAPPED_V6_PREFIX;
  }

  /** Every IPv4-mapped address passes the text test: the two tests differ only by false positives. */
  lemma MappedPassesTextTest(ip: IpAddr)
    ensures IsV4MappedV6(ip) ==> IsV4MappedV6AsWritten(ip)
  {
    if IsV4MappedV6(ip) {
      var t := Ipv6Text(ip.v6);
      assert t == DUAL_STACK_IP_V4_MAPPED_V6_PREFIX + Ipv4Text(ip.v6 % IPV4_SPACE);
      assert t[..|DUAL_STACK_IP_V4_MAPPED_V6_PREFIX|] == DUAL_STACK_IP_V4_MAPPED_V6_PREFIX;
    }
  }

  /** The IPv6 address that maps an IPv4 address (`Ipv4Addr::to_ipv6_mapped`). */
  function ToIpv6Mapped(a: Ipv4Bits): (r: Ipv6Bits)
    ensures r % IPV4_SPACE == a
  {
    0xffff_0000_0000 + a
  }

  /**
   * A binding on the mapped form of any IPv4 address is classified as
   * `V4MappedV6`, one on an IPv4 address as `Plain`, and the mapped address
   * carries the IPv4 address in its low 32 bits.
   */
  lemma MappedAddressesClassified(protocol: Protocol, a: Ipv4Bits, port: Port)
    ensures ServiceBinding(protocol, SocketAddr(V6(ToIpv6Mapped(a)), port)).BindAddressIpType() == V4MappedV6
    ensures ServiceBinding(protocol, SocketAddr(V4(a), port)).BindAddressIpType() == Plain
  {
    var m := ToIpv6Mapped(a);
    assert m / 0x1_0000_0000 == 0xffff;
    assert m / 0x1_0000_0000 % 0x1_0000 == 0xffff;
    assert m / 0x1_0000_0000_0000 == 0;
  }
}
