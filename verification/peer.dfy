/** Convergence-layer peers (src/cla/peer.rs and the `TcpPeer` half of
    src/cla/tcp/client.rs). The stream transport is the only peer kind
    modelled. Whether a TCP connect to an address succeeds within the
    3-second timeout is an outside fact, passed in as `connects`. */
module Peer {
  import opened Wrappers
  import opened Numeric
  import opened Endpoint

  const TCP_CLA_TYPE: string := "tcp"

  /** `TcpConnectionInfo` without its display-only durations and socket
      addresses. */
  datatype TcpConnectionInfo = TcpConnectionInfo(address: string, port: u16, isReachable: bool)

  /** `str::rfind(c)`: the index of the last occurrence of `c`. */
  function LastIndexOf(s: string, c: char): (r: Option<nat>)
    ensures r.Some? ==> r.value < |s| && s[r.value] == c
    ensures r.Some? ==> forall j :: r.value < j < |s| ==> s[j] != c
    ensures r.None? ==> forall j :: 0 <= j < |s| ==> s[j] != c
    decreases |s|
  {
    if |s| == 0 then None
    else if s[|s| - 1] == c then Some(|s| - 1)
    else LastIndexOf(s[..|s| - 1], c)
  }

  /** `TcpConnectionInfo::new(address)`: the port is the text after the last
      colon parsed as a `u16`, or 0 when there is no colon or the text is not
      a valid port. The address is kept whole, host and port included. */
  function NewConnectionInfo(address: string): (info: TcpConnectionInfo)
    ensures info.address == address && !info.isReachable
    ensures LastIndexOf(address, ':').None? ==> info.port == 0
    ensures LastIndexOf(address, ':').Some? ==>
              var tail := address[LastIndexOf(address, ':').value + 1..];
              info.port == (if ParseU16(tail).Some? then ParseU16(tail).value else 0)
  {
    var port := match LastIndexOf(address, ':')
      case None => 0
      case Some(i) =>
        match ParseU16(address[i + 1..])
        case Some(p) => p
        case None => 0;
    TcpConnectionInfo(address, port, false)
  }

  /** `host:port` gives back the port, whatever colons the host contains. */
  lemma ConnectionInfoPortOfHostPort(host: string, p: u16)
    ensures NewConnectionInfo(host + ":" + Decimal(p as nat)).port == p
  {
    var digits := Decimal(p as nat);
    var a := host + ":" + digits;
    assert a[|host|] == ':';
    assert forall j :: |host| < j < |a| ==> a[j] == digits[j - |host| - 1];
    assert LastIndexOf(a, ':') == Some(|host|);
    assert a[|host| + 1..] == digits;
    ParseU16OfDecimal(p);
  }

  /** An address without a colon has port 0. */
  lemma ConnectionInfoWithoutColon(address: string)
    requires forall j :: 0 <= j < |address| ==> address[j] != ':'
    ensures NewConnectionInfo(address).port == 0
  {
  }

  datatype ClaPeer = TcpPeer(peerId: EndpointId, address: string, connectionInfo: Option<TcpConnectionInfo>)

  /** `TcpPeer::new`. */
  function NewTcpPeer(eid: EndpointId, address: string): (p: ClaPeer)
    ensures PeerEndpointId(p) == eid && ConnectionAddress(p) == address
  {
    TcpPeer(eid, address, None)
  }

  /** `TcpPeer::from_endpoint_id`: the identifier doubles as the address. */
  function FromEndpointId(eid: EndpointId): (p: ClaPeer)
    ensures PeerEndpointId(p) == eid && ConnectionAddress(p) == eid.AsStr()
    ensures ClaType(p) == "tcp"
  {
    TcpPeer(eid, eid.AsStr(), None)
  }

  function WithConnectionInfo(p: ClaPeer, info: TcpConnectionInfo): ClaPeer {
    p.(connectionInfo := Some(info))
  }

  /** `get_peer_endpoint_id`. */
  function PeerEndpointId(p: ClaPeer): EndpointId {
    p.peerId
  }

  /** `get_cla_type`. */
  function ClaType(p: ClaPeer): string {
    TCP_CLA_TYPE
  }

  /** `ConvergenceLayer::address`. */
  function Address(p: ClaPeer): string {
    p.address
  }

  /** `get_connection_address`: the stored info's address and port joined by
      a colon, or the peer's own address when no info is stored. */
  function ConnectionAddress(p: ClaPeer): string {
    match p.connectionInfo
    case None => p.address
    case Some(info) => info.address + ":" + Decimal(info.port as nat)
  }

  /** Since the info keeps the whole `host:port` string as its address, the
      connection address of a peer carrying info built from `host:port`
      repeats the port. */
  lemma ConnectionAddressRepeatsPort(p: ClaPeer, host: string, port: u16)
    ensures var a := host + ":" + Decimal(port as nat);
      ConnectionAddress(WithConnectionInfo(p, NewConnectionInfo(a))) == a + ":" + Decimal(port as nat)
  {
    ConnectionInfoPortOfHostPort(host, port);
  }

  /** `tcp_connect_and_collect_info`: every outcome of the connect attempt,
      including a timeout, yields `Ok(Some(info))`; only `is_reachable`
      records whether it succeeded. */
  function ConnectAndCollectInfo(address: string, connected: bool): (r: Result<Option<TcpConnectionInfo>, string>)
    ensures r.Ok? && r.value.Some?
    ensures r.value.value.address == address && r.value.value.isReachable == connected
  {
    Ok(Some(NewConnectionInfo(address).(isReachable := connected)))
  }

  /** `is_reachable`: probes the peer's own address (not its connection
      address). */
  function IsReachable(p: ClaPeer, connects: string -> bool): (r: bool)
    ensures r == connects(p.address)
  {
    match ConnectAndCollectInfo(p.address, connects(p.address))
    case Ok(Some(info)) => info.isReachable
    case _ => false
  }

  /** `activate` of a TCP peer: fails only when the probe returns no info,
      which never happens, so activation always succeeds. */
  function Activate(p: ClaPeer, connects: string -> bool): (r: Result<(), string>)
    ensures r.Ok?
  {
    match ConnectAndCollectInfo(p.address, connects(p.address))
    case Ok(Some(_)) => Ok(())
    case Ok(None) => Err("TCP connection failed: " + p.address)
    case Err(e) => Err(e)
  }
}
