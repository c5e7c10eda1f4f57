/**
 * The address record of the root Server.cpp: `InitSockaddrStruct` fills a
 * zeroed `sockaddr_in` with a family, an address and a port, the last two
 * converted to network byte order, and the `Server` constructor asks it for
 * the wildcard IPv4 address on the given port.
 */
module LegacyServer {
  import opened ByteOrder
  import opened Posix
  import Socket

  /**
   * `InitSockaddrStruct(family, hostlong, port_number)`: `bzero` the record,
   * then `sin_family = family` (an `int` stored in 16 bits), `sin_addr =
   * htonl(hostlong)` and `sin_port = htons(port_number)`.
   */
  function InitSockaddrStruct(host: Endianness, family: int, hostlong: uint32, portNumber: uint16): (s: Socket.SockaddrIn)
    ensures s.family == family % 0x1_0000
    ensures Ntohl(host, s.addr) == hostlong
    ensures Ntohs(host, s.port) == portNumber
    ensures forall k :: 0 <= k < |s.zero| ==> s.zero[k] == 0
  {
    NtohlHtonl(host, hostlong);
    NtohsHtons(host, portNumber);
    Socket.SockaddrIn(family % 0x1_0000, Htons(host, portNumber), Htonl(host, hostlong), Socket.NoPadding)
  }

  /**
   * The memory image of the record: the family in host order, then the port
   * and the address most significant byte first whatever the host's order
   * (network order, Appendix B of RFC 791), then eight zero bytes.
   */
  lemma InitSockaddrStructImage(host: Endianness, family: int, hostlong: uint32, portNumber: uint16)
    ensures var b := Socket.EncodeIn(host, InitSockaddrStruct(host, family, hostlong, portNumber));
      && b[0..2] == Store16(host, family % 0x1_0000)
      && b[2..4] == [portNumber / 0x100, portNumber % 0x100]
      && b[4..8] == Store32(Network, hostlong)
      && b[8..16] == [0, 0, 0, 0, 0, 0, 0, 0]
  {
    HtonsStoresNetworkOrder(host, portNumber);
    HtonlStoresNetworkOrder(host, hostlong);
  }

  /** INADDR_ANY is stored as 0, the same field on hosts of either byte order. */
  lemma WildcardIsOrderIndependent(family: int, portNumber: uint16)
    ensures InitSockaddrStruct(LittleEndian, family, INADDR_ANY, portNumber).addr == INADDR_ANY
    ensures InitSockaddrStruct(BigEndian, family, INADDR_ANY, portNumber).addr == INADDR_ANY
  {
    HtonlZero(LittleEndian);
  }

  /**
   * The address the `Server` constructor binds: IPv4, any interface, the
   * given port.
   */
  function ListenAddress(host: Endianness, portNumber: uint16): (s: Socket.SockaddrIn)
    ensures s.family == AF_INET && s.addr == INADDR_ANY
    ensures Socket.ShownPort(host, Socket.FromSockaddrIn(s)) == portNumber
  {
    assert AF_INET % 0x1_0000 == AF_INET;
    HtonlZero(host);
    var s := InitSockaddrStruct(host, AF_INET, INADDR_ANY, portNumber);
    assert Socket.FromSockaddrIn(s) == Socket.V4(s);
    s
  }
}
