/**
 * Resolution of an HTTP tracker client's address: the IP comes from the
 * right-most `X-Forwarded-For` address behind a reverse proxy and from the
 * connection otherwise; the port always comes from the connection.
 *
 * The source location carried by the Rust errors is not modelled.
 */
module PeerIpResolver {
  import opened Wrappers
  import opened Net

  /** Whether the tracker runs behind a reverse proxy. */
  datatype ReverseProxyMode = Enabled | Disabled

  /** `From<ReverseProxyMode> for bool`. */
  function ModeToBool(mode: ReverseProxyMode): (r: bool)
    ensures r <==> mode.Enabled?
  {
    match mode
    case Enabled => true
    case Disabled => false
  }

  /** `From<bool> for ReverseProxyMode`. */
  function ModeFromBool(b: bool): (r: ReverseProxyMode)
    ensures r.Enabled? <==> b
  {
    if b then Enabled else Disabled
  }

  /** The two conversions are inverse to each other. */
  lemma ModeBoolRoundTrip(mode: ReverseProxyMode, b: bool)
    ensures ModeFromBool(ModeToBool(mode)) == mode
    ensures ModeToBool(ModeFromBool(b)) == b
  {
  }

  /** The places a client address can be taken from. */
  datatype ClientIpSources = ClientIpSources(
    rightMostXForwardedFor: Option<IpAddr>,
    connectionInfoSocketAddress: Option<SocketAddr>)

  datatype PeerIpResolutionError = MissingRightMostXForwardedForIp | MissingClientIp

  /** Where the resolved IP came from. */
  datatype ResolvedIp = FromXForwardedFor(fromHeader: IpAddr) | FromSocketAddr(fromConnection: IpAddr)

  datatype RemoteClientAddr = RemoteClientAddr(resolved: ResolvedIp, port: Option<Port>)
  {
    /** `ip`: the address, whichever source it came from. */
    function Ip(): (r: IpAddr)
      ensures resolved == FromXForwardedFor(r) || resolved == FromSocketAddr(r)
    {
      match resolved
      case FromXForwardedFor(ip) => ip
      case FromSocketAddr(ip) => ip
    }
  }

  /** `try_client_ip_from_connection_info`. */
  function TryClientIpFromConnectionInfo(sources: ClientIpSources): (r: Result<IpAddr, PeerIpResolutionError>)
    ensures r.Ok? <==> sources.connectionInfoSocketAddress.Some?
    ensures r.Ok? ==> r.value == sources.connectionInfoSocketAddress.value.ip
    ensures r.Err? ==> r.error == MissingClientIp
  {
    match sources.connectionInfoSocketAddress
    case Some(addr) => Ok(addr.ip)
    case None => Err(MissingClientIp)
  }

  /** `try_client_ip_from_proxy_header`. */
  function TryClientIpFromProxyHeader(sources: ClientIpSources): (r: Result<IpAddr, PeerIpResolutionError>)
    ensures r.Ok? <==> sources.rightMostXForwardedFor.Some?
    ensures r.Ok? ==> r.value == sources.rightMostXForwardedFor.value
    ensures r.Err? ==> r.error == MissingRightMostXForwardedForIp
  {
    match sources.rightMostXForwardedFor
    case Some(ip) => Ok(ip)
    case None => Err(MissingRightMostXForwardedForIp)
  }

  /** `client_port_from_connection_info`. */
  function ClientPortFromConnectionInfo(sources: ClientIpSources): (r: Option<Port>)
    ensures r.Some? <==> sources.connectionInfoSocketAddress.Some?
    ensures r.Some? ==> r.value == sources.connectionInfoSocketAddress.value.port
  {
    if sources.connectionInfoSocketAddress.Some? then Some(sources.connectionInfoSocketAddress.value.port) else None
  }

  /**
   * `resolve_remote_client_addr`: behind a proxy the IP is the right-most
   * forwarded address, otherwise the connection's; a missing source is an
   * error; the port is the connection's whenever there is one.
   */
  function ResolveRemoteClientAddr(mode: ReverseProxyMode, sources: ClientIpSources)
    : (r: Result<RemoteClientAddr, PeerIpResolutionError>)
    ensures mode.Enabled? ==> (r.Ok? <==> sources.rightMostXForwardedFor.Some?)
    ensures mode.Enabled? && r.Ok? ==> r.value.resolved == FromXForwardedFor(sources.rightMostXForwardedFor.value)
    ensures mode.Enabled? && r.Err? ==> r.error == MissingRightMostXForwardedForIp
    ensures mode.Disabled? ==> (r.Ok? <==> sources.connectionInfoSocketAddress.Some?)
    ensures mode.Disabled? && r.Ok? ==> r.value.resolved == FromSocketAddr(sources.connectionInfoSocketAddress.value.ip)
    ensures mode.Disabled? && r.Err? ==> r.error == MissingClientIp
    ensures r.Ok? ==> r.value.port == ClientPortFromConnectionInfo(sources)
  {
    var ip := match mode
              case Enabled =>
                (match TryClientIpFromProxyHeader(sources)
                 case Ok(ip) => Ok(FromXForwardedFor(ip))
                 case Err(e) => Err(e))
              case Disabled =>
                (match TryClientIpFromConnectionInfo(sources)
                 case Ok(ip) => Ok(FromSocketAddr(ip))
                 case Err(e) => Err(e));
    match ip
    case Err(e) => Err(e)
    case Ok(resolved) => Ok(RemoteClientAddr(resolved, ClientPortFromConnectionInfo(sources)))
  }

  /**
   * Behind a proxy the connection address never decides the IP, and without a
   * proxy the forwarded header never does: two sources that agree on the
   * consulted one resolve to the same IP.
   */
  lemma OnlyTheConsultedSourceMatters(mode: ReverseProxyMode, a: ClientIpSources, b: ClientIpSources)
    requires mode.Enabled? ==> a.rightMostXForwardedFor == b.rightMostXForwardedFor
    requires mode.Disabled? ==> (a.connectionInfoSocketAddress.Some? <==> b.connectionInfoSocketAddress.Some?)
    requires mode.Disabled? && a.connectionInfoSocketAddress.Some? && b.connectionInfoSocketAddress.Some? ==>
               a.connectionInfoSocketAddress.value.ip == b.connectionInfoSocketAddress.value.ip
    ensures ResolveRemoteClientAddr(mode, a).Ok? <==> ResolveRemoteClientAddr(mode, b).Ok?
    ensures ResolveRemoteClientAddr(mode, a).Ok? ==>
              ResolveRemoteClientAddr(mode, a).value.Ip() == ResolveRemoteClientAddr(mode, b).value.Ip()
  {
  }
}
