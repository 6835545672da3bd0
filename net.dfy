/**
 * The parts of Rust's `std::net` that the tracker relies on: IP and socket
 * addresses, their ordering (the key order of a `BTreeMap<SocketAddr, _>`) and
 * the textual form of an IPv6 address.
 *
 * An IPv4 address is its 32-bit value and an IPv6 address its 128-bit value,
 * both read big-endian from the octets, so that numeric order is the order
 * Rust derives for `Ipv4Addr` and `Ipv6Addr`.
 */
module Net {
  import Assoc

  const IPV4_SPACE: nat := 0x1_0000_0000
  const IPV6_SPACE: nat := 0x1_0000_0000_0000_0000_0000_0000_0000_0000

  type Port = p: nat | p < 0x1_0000
  type Ipv4Bits = a: nat | a < IPV4_SPACE
  type Ipv6Bits = a: nat | a < IPV6_SPACE

  datatype IpAddr = V4(v4: Ipv4Bits) | V6(v6: Ipv6Bits)

  /** `SocketAddr`; the IPv6 flow label and scope id are not modelled. */
  datatype SocketAddr = SocketAddr(ip: IpAddr, port: Port)

  /** Position of an address in the order of `IpAddr`: every IPv4 address comes before every IPv6 one. */
  function IpRank(ip: IpAddr): nat
  {
    match ip
    case V4(a) => a
    case V6(a) => IPV4_SPACE + a
  }

  /** The strict order of `SocketAddr`: by address, then by port. */
  predicate AddrLess(a: SocketAddr, b: SocketAddr)
  {
    IpRank(a.ip) < IpRank(b.ip) || (IpRank(a.ip) == IpRank(b.ip) && a.port < b.port)
  }

  lemma IpRankInjective(a: IpAddr, b: IpAddr)
    requires IpRank(a) == IpRank(b)
    ensures a == b
  {
  }

  lemma AddrLessIsStrictTotalOrder()
    ensures Assoc.StrictTotalOrder(AddrLess)
  {
    forall a: SocketAddr, b: SocketAddr | a != b ensures AddrLess(a, b) || AddrLess(b, a) {
      if IpRank(a.ip) == IpRank(b.ip) {
        IpRankInjective(a.ip, b.ip);
      }
    }
  }

  // ---------------------------------------------------------------------------
  // Text form of addresses (the `Display` of `Ipv4Addr` and `Ipv6Addr`)
  // ---------------------------------------------------------------------------

  function DecimalDigit(d: nat): char
    requires d < 10
  {
    "0123456789"[d]
  }

  function HexDigit(d: nat): char
    requires d < 16
  {
    "0123456789abcdef"[d]
  }

  /** `{}` of an unsigned integer: decimal without leading zeros. */
  function Decimal(n: nat): string
    decreases n
  {
    if n < 10 then [DecimalDigit(n)] else Decimal(n / 10) + [DecimalDigit(n % 10)]
  }

  /** `{:x}` of an unsigned integer: lower-case hexadecimal without leading zeros. */
  function LowerHex(n: nat): string
    decreases n
  {
    if n < 16 then [HexDigit(n)] else LowerHex(n / 16) + [HexDigit(n % 16)]
  }

  /** The dotted-quad text of an IPv4 address. */
  function Ipv4Text(a: Ipv4Bits): string
  {
    Decimal(a / 0x100_0000) + "." + Decimal(a / 0x1_0000 % 0x100) + "." +
    Decimal(a / 0x100 % 0x100) + "." + Decimal(a % 0x100)
  }

  /** The eight 16-bit segments of an IPv6 address, most significant first. */
  function Segments(a: Ipv6Bits): (r: seq<nat>)
    ensures |r| == 8
  {
    [a / 0x1_0000_0000_0000_0000_0000_0000_0000 % 0x1_0000,
     a / 0x1_0000_0000_0000_0000_0000_0000 % 0x1_0000,
     a / 0x1_0000_0000_0000_0000_0000 % 0x1_0000,
     a / 0x1_0000_0000_0000_0000 % 0x1_0000,
     a / 0x1_0000_0000_0000 % 0x1_0000,
     a / 0x1_0000_0000 % 0x1_0000,
     a / 0x1_0000 % 0x1_0000,
     a % 0x1_0000]
  }

  /** `Ipv6Addr::to_ipv4_mapped` succeeds: the address is `::ffff:a.b.c.d`. */
  predicate IsIpv4Mapped(a: Ipv6Bits)
  {
    var s := Segments(a);
    s[0] == 0 && s[1] == 0 && s[2] == 0 && s[3] == 0 && s[4] == 0 && s[5] == 0xffff
  }

  /** A run of zero segments. */
  datatype Span = Span(start: nat, len: nat)

  /** The scan of the standard library's formatter: the first longest run of zero segments from `i` on. */
  function ScanZeroSpans(segs: seq<nat>, i: nat, current: Span, longest: Span): Span
    decreases |segs| - i
  {
    if i >= |segs| then longest
    else if segs[i] == 0 then
      var cur := if current.len == 0 then Span(i, 1) else Span(current.start, current.len + 1);
      ScanZeroSpans(segs, i + 1, cur, if cur.len > longest.len then cur else longest)
    else ScanZeroSpans(segs, i + 1, Span(0, 0), longest)
  }

  /** Segments in lower-case hexadecimal separated by ':'. */
  function JoinHex(segs: seq<nat>): string
  {
    if |segs| == 0 then ""
    else if |segs| == 1 then LowerHex(segs[0])
    else LowerHex(segs[0]) + ":" + JoinHex(segs[1..])
  }

  /** The `Display` of `Ipv6Addr`: the mapped form, or the longest zero run written as "::". */
  function Ipv6Text(a: Ipv6Bits): string
  {
    if IsIpv4Mapped(a) then "::ffff:" + Ipv4Text(a % IPV4_SPACE)
    else
      var segs := Segments(a);
      var z := ScanZeroSpans(segs, 0, Span(0, 0), Span(0, 0));
      if z.len > 1 && z.start + z.len <= |segs| then
        JoinHex(segs[..z.start]) + "::" + JoinHex(segs[z.start + z.len..])
      else JoinHex(segs)
  }

  function IpText(ip: IpAddr): string
  {
    match ip
    case V4(a) => Ipv4Text(a)
    case V6(a) => Ipv6Text(a)
  }
}
