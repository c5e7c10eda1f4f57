/**
 * The endpoint abstraction of src/Socket.cpp: an IPv4 or IPv6 socket address
 * held as the OS address record it wraps, its constructors, the family and
 * size dispatch, byte-wise equality, rendering as text, and the way
 * `Socket::Accept` classifies the result of `accept`.
 */
module Socket {
  import opened Wrappers
  import opened ByteOrder
  import opened Text
  import opened Posix

  /** The bytes of an `in_addr` (4) and of an `in6_addr` (16), as `inet_pton` writes them. */
  type InAddrBytes = b: seq<byte> | |b| == 4 witness [0, 0, 0, 0]
  type In6Addr = b: seq<byte> | |b| == 16 witness [0, 0, 0, 0, 0, 0, 0, 0, 0, 0, 0, 0, 0, 0, 0, 0]
  type Padding = b: seq<byte> | |b| == 8 witness [0, 0, 0, 0, 0, 0, 0, 0]

  /**
   * `struct sockaddr_in`, field by field, each field the value the host reads
   * from it: `port` holds the port in network order (`htons` of it) and `addr`
   * is `sin_addr.s_addr`.
   */
  datatype SockaddrIn = SockaddrIn(family: uint16, port: uint16, addr: uint32, zero: Padding)

  /** `struct sockaddr_in6`. */
  datatype SockaddrIn6 = SockaddrIn6(family: uint16, port: uint16, flowinfo: uint32, addr: In6Addr, scopeId: uint32)

  /** `std::variant<sockaddr_in, sockaddr_in6>`: exactly one family is held. */
  datatype Endpoint = V4(sin: SockaddrIn) | V6(sin6: SockaddrIn6)

  /** `SocketType`, whose values are the OS socket types. */
  datatype SocketType = Stream | Datagram

  function SocketTypeValue(t: SocketType): (v: int)
    ensures v == SOCK_STREAM <==> t == Stream
    ensures v == SOCK_DGRAM <==> t == Datagram
  {
    match t
    case Stream => SOCK_STREAM
    case Datagram => SOCK_DGRAM
  }

  /**
   * The text conversions of the C library, `inet_pton` and `inet_ntop`, left
   * uninterpreted: each is any function. `None` is a failed conversion.
   */
  datatype InetLib = InetLib(
    pton4: string -> Option<InAddrBytes>,
    pton6: string -> Option<In6Addr>,
    ntop4: InAddrBytes -> Option<string>,
    ntop6: In6Addr -> Option<string>)

  /** The two `std::runtime_error`s the constructors throw. */
  datatype EndpointError = CannotParseAddress(text: string) | BadAddressSize(len: uint32)

  function ErrorMessage(e: EndpointError): string {
    match e
    case CannotParseAddress(text) => "Cannot parse address: '" + text + "'"
    case BadAddressSize(len) => "Bad address size: " + Decimal(len)
  }

  /** The length named in a "Bad address size" message reads back from it. */
  lemma BadSizeMessageNamesLength(len: uint32)
    ensures var m := ErrorMessage(BadAddressSize(len));
      |m| > 18 && m[..18] == "Bad address size: " && ParseDecimal(m[18..]) == Some(len as nat)
  {
    var m := ErrorMessage(BadAddressSize(len));
    assert m[18..] == Decimal(len);
    ParseDecimalOfDecimal(len);
    DecimalIsCanonical(len);
  }

  const NoPadding: Padding := [0, 0, 0, 0, 0, 0, 0, 0]

  /**
   * `Endpoint(const std::string& addr, uint16_t port)`: the text is read as
   * IPv4 first and only then as IPv6; each record starts zero-filled and gets
   * the family and `htons(port)`.
   */
  function FromText(lib: InetLib, host: Endianness, text: string, port: uint16): (r: Result<Endpoint, EndpointError>)
    ensures r.Success? <==> lib.pton4(text).Some? || lib.pton6(text).Some?
    ensures r.Failure? ==> r.error == CannotParseAddress(text)
    ensures r.Success? ==> (r.value.V4? <==> lib.pton4(text).Some?)
    ensures r.Success? ==> ShownPort(host, r.value) == port
    ensures r.Success? && r.value.V4? ==>
      && r.value.sin.family == AF_INET
      && Store32(host, r.value.sin.addr) == lib.pton4(text).value
      && r.value.sin.zero == NoPadding
    ensures r.Success? && r.value.V6? ==>
      && r.value.sin6.family == AF_INET6
      && r.value.sin6.addr == lib.pton6(text).value
      && r.value.sin6.flowinfo == 0 && r.value.sin6.scopeId == 0
  {
    NtohsHtons(host, port);
    match lib.pton4(text)
    case Some(a) =>
      Store32Load32(host, a);
      Success(V4(SockaddrIn(AF_INET, Htons(host, port), Load32(host, a), NoPadding)))
    case None =>
      match lib.pton6(text)
      case Some(a6) => Success(V6(SockaddrIn6(AF_INET6, Htons(host, port), 0, a6, 0)))
      case None => Failure(CannotParseAddress(text))
  }

  /**
   * `Endpoint()`: a value-initialised variant holds an all-zero `sockaddr_in`.
   * `Domain` reads PF_INET from the alternative, while the stored family
   * field is 0 (AF_UNSPEC), not AF_INET.
   */
  function DefaultEndpoint(): (e: Endpoint)
    ensures Domain(e) == PF_INET && e.sin.family == 0 && e.sin.port == 0 && e.sin.addr == 0
    ensures e.sin.zero == NoPadding
  {
    V4(SockaddrIn(0, 0, 0, NoPadding))
  }

  /** The memory image of a `sockaddr_in` on a host of the given order. */
  function EncodeIn(host: Endianness, s: SockaddrIn): (b: seq<byte>)
    ensures |b| == SIZEOF_SOCKADDR_IN
  {
    Store16(host, s.family) + Store16(host, s.port) + Store32(host, s.addr) + s.zero
  }

  function DecodeIn(host: Endianness, b: seq<byte>): SockaddrIn
    requires |b| == SIZEOF_SOCKADDR_IN
  {
    SockaddrIn(Load16(host, b[0..2]), Load16(host, b[2..4]), Load32(host, b[4..8]), b[8..16])
  }

  function EncodeIn6(host: Endianness, s: SockaddrIn6): (b: seq<byte>)
    ensures |b| == SIZEOF_SOCKADDR_IN6
  {
    Store16(host, s.family) + Store16(host, s.port) + Store32(host, s.flowinfo) + s.addr + Store32(host, s.scopeId)
  }

  function DecodeIn6(host: Endianness, b: seq<byte>): SockaddrIn6
    requires |b| == SIZEOF_SOCKADDR_IN6
  {
    SockaddrIn6(Load16(host, b[0..2]), Load16(host, b[2..4]), Load32(host, b[4..8]), b[8..24], Load32(host, b[24..28]))
  }

  lemma DecodeEncodeIn(host: Endianness, s: SockaddrIn)
    ensures DecodeIn(host, EncodeIn(host, s)) == s
  {
    var b := EncodeIn(host, s);
    assert b[0..2] == Store16(host, s.family);
    assert b[2..4] == Store16(host, s.port);
    assert b[4..8] == Store32(host, s.addr);
    assert b[8..16] == s.zero;
    Load16Store16(host, s.family);
    Load16Store16(host, s.port);
    Load32Store32(host, s.addr);
  }

  lemma EncodeDecodeIn(host: Endianness, b: seq<byte>)
    requires |b| == SIZEOF_SOCKADDR_IN
    ensures EncodeIn(host, DecodeIn(host, b)) == b
  {
    Store16Load16(host, b[0..2]);
    Store16Load16(host, b[2..4]);
    Store32Load32(host, b[4..8]);
    assert b == b[0..2] + b[2..4] + b[4..8] + b[8..16];
  }

  lemma DecodeEncodeIn6(host: Endianness, s: SockaddrIn6)
    ensures DecodeIn6(host, EncodeIn6(host, s)) == s
  {
    var b := EncodeIn6(host, s);
    assert b[0..2] == Store16(host, s.family);
    assert b[2..4] == Store16(host, s.port);
    assert b[4..8] == Store32(host, s.flowinfo);
    assert b[8..24] == s.addr;
    assert b[24..28] == Store32(host, s.scopeId);
    Load16Store16(host, s.family);
    Load16Store16(host, s.port);
    Load32Store32(host, s.flowinfo);
    Load32Store32(host, s.scopeId);
  }

  lemma EncodeDecodeIn6(host: Endianness, b: seq<byte>)
    requires |b| == SIZEOF_SOCKADDR_IN6
    ensures EncodeIn6(host, DecodeIn6(host, b)) == b
  {
    Store16Load16(host, b[0..2]);
    Store16Load16(host, b[2..4]);
    Store32Load32(host, b[4..8]);
    Store32Load32(host, b[24..28]);
    assert b == b[0..2] + b[2..4] + b[4..8] + b[8..24] + b[24..28];
  }

  /** `Endpoint(const sockaddr_in&)`: the record is kept as it is. */
  function FromSockaddrIn(s: SockaddrIn): (e: Endpoint)
    ensures Domain(e) == PF_INET && e.sin == s
  {
    V4(s)
  }

  /** `Endpoint(const sockaddr_in6&)`. */
  function FromSockaddrIn6(s: SockaddrIn6): (e: Endpoint)
    ensures Domain(e) == PF_INET6 && e.sin6 == s
  {
    V6(s)
  }

  /**
   * `Endpoint(const sockaddr& addr, socklen_t len)`: the length alone picks
   * the family, and the first `len` bytes are copied verbatim, family field
   * included.  The caller's record holds at least `len` bytes.
   */
  function FromRaw(host: Endianness, raw: seq<byte>, len: uint32): (r: Result<Endpoint, EndpointError>)
    requires len == SIZEOF_SOCKADDR_IN ==> |raw| >= SIZEOF_SOCKADDR_IN
    requires len == SIZEOF_SOCKADDR_IN6 ==> |raw| >= SIZEOF_SOCKADDR_IN6
    ensures r.Success? <==> len == SIZEOF_SOCKADDR_IN || len == SIZEOF_SOCKADDR_IN6
    ensures r.Failure? ==> r.error == BadAddressSize(len)
    ensures r.Success? ==> RawAddr(host, r.value) == (raw[..len], len as int)
  {
    if len == SIZEOF_SOCKADDR_IN then
      EncodeDecodeIn(host, raw[..SIZEOF_SOCKADDR_IN]);
      Success(V4(DecodeIn(host, raw[..SIZEOF_SOCKADDR_IN])))
    else if len == SIZEOF_SOCKADDR_IN6 then
      EncodeDecodeIn6(host, raw[..SIZEOF_SOCKADDR_IN6]);
      Success(V6(DecodeIn6(host, raw[..SIZEOF_SOCKADDR_IN6])))
    else
      Failure(BadAddressSize(len))
  }

  /** `Endpoint::Domain`: the protocol family of the held alternative. */
  function Domain(e: Endpoint): int {
    match e
    case V4(_) => PF_INET
    case V6(_) => PF_INET6
  }

  /** `Endpoint::RawAddr`: the record's memory image and `sizeof` the record. */
  function RawAddr(host: Endianness, e: Endpoint): (r: (seq<byte>, int))
    ensures |r.0| == r.1
  {
    match e
    case V4(s) => (EncodeIn(host, s), SIZEOF_SOCKADDR_IN as int)
    case V6(s) => (EncodeIn6(host, s), SIZEOF_SOCKADDR_IN6 as int)
  }

  /** The family and the size reported for an endpoint agree with the alternative it holds. */
  lemma DomainAgreesWithRawAddr(host: Endianness, e: Endpoint)
    ensures Domain(e) == PF_INET <==> e.V4?
    ensures Domain(e) == PF_INET6 <==> e.V6?
    ensures RawAddr(host, e).1 == (if e.V4? then SIZEOF_SOCKADDR_IN else SIZEOF_SOCKADDR_IN6)
  {
  }

  /** Handing `RawAddr` back to the raw constructor rebuilds the same endpoint. */
  lemma FromRawOfRawAddr(host: Endianness, e: Endpoint)
    ensures var (b, len) := RawAddr(host, e);
      0 <= len < 0x1_0000_0000 && FromRaw(host, b, len) == Success(e)
  {
    match e
    case V4(s) =>
      DecodeEncodeIn(host, s);
      assert EncodeIn(host, s)[..SIZEOF_SOCKADDR_IN] == EncodeIn(host, s);
    case V6(s) =>
      DecodeEncodeIn6(host, s);
      assert EncodeIn6(host, s)[..SIZEOF_SOCKADDR_IN6] == EncodeIn6(host, s);
  }

  /** The 12 bytes of the variant's union behind a `sockaddr_in`, which only a `sockaddr_in6` fills. */
  type UnionTail = t: seq<byte> | |t| == SIZEOF_SOCKADDR_IN6 - SIZEOF_SOCKADDR_IN
    witness [0, 0, 0, 0, 0, 0, 0, 0, 0, 0, 0, 0]

  /** The 3 bytes of padding after the variant's one-byte index (libstdc++). */
  type IndexPadding = p: seq<byte> | |p| == 3 witness [0, 0, 0]

  /**
   * The bytes of an endpoint object that no record is stored in: the tail of
   * the union when it holds a `sockaddr_in`, and the padding after the index.
   * The default member initialiser `m_addr = {}` value-initialises the
   * variant, which with libstdc++ (whose default constructor is not
   * user-provided) zeroes all of them first; the default, text and raw
   * constructors keep it, so they leave `ZeroUnwritten`.  The record
   * constructors initialise `m_addr` from the record instead, and there these
   * bytes are indeterminate; the model takes them as given.
   */
  datatype Unwritten = Unwritten(tail: UnionTail, padding: IndexPadding)

  /** The unwritten bytes of an endpoint built by `Endpoint()`, from text, or from raw bytes. */
  const ZeroUnwritten: Unwritten := Unwritten([0, 0, 0, 0, 0, 0, 0, 0, 0, 0, 0, 0], [0, 0, 0])

  /**
   * The 32 bytes `operator==`'s `memcmp` compares, `sizeof(m_addr)`: the
   * 28-byte union (the held record's memory image, then for IPv4 the unused
   * tail), the index of the alternative, and the padding.
   */
  function Storage(host: Endianness, e: Endpoint, u: Unwritten): (b: seq<byte>)
    ensures |b| == SIZEOF_SOCKADDR_IN6 + 4
    ensures b[SIZEOF_SOCKADDR_IN6] == (if e.V4? then 0 else 1)
  {
    match e
    case V4(s) => EncodeIn(host, s) + u.tail + [0] + u.padding
    case V6(s) => EncodeIn6(host, s) + [1] + u.padding
  }

  /** `Endpoint::operator==` of two objects whose unwritten bytes are `ua` and `ub`. */
  predicate Equal(host: Endianness, a: Endpoint, ua: Unwritten, b: Endpoint, ub: Unwritten) {
    Storage(host, a, ua) == Storage(host, b, ub)
  }

  /**
   * Endpoints that compare equal are identical records of the same family:
   * every field, the family field, flow information, scope id and padding
   * of the record included.
   */
  lemma EqualOnlyIfIdentical(host: Endianness, a: Endpoint, ua: Unwritten, b: Endpoint, ub: Unwritten)
    ensures Equal(host, a, ua, b, ub) ==> a == b
  {
    if Equal(host, a, ua, b, ub) {
      var ea, eb := Storage(host, a, ua), Storage(host, b, ub);
      assert ea[SIZEOF_SOCKADDR_IN6] == eb[SIZEOF_SOCKADDR_IN6];
      match a
      case V4(s) =>
        assert ea[..SIZEOF_SOCKADDR_IN] == EncodeIn(host, s);
        assert eb[..SIZEOF_SOCKADDR_IN] == EncodeIn(host, b.sin);
        DecodeEncodeIn(host, s);
        DecodeEncodeIn(host, b.sin);
      case V6(s) =>
        assert ea[..SIZEOF_SOCKADDR_IN6] == EncodeIn6(host, s);
        assert eb[..SIZEOF_SOCKADDR_IN6] == EncodeIn6(host, b.sin6);
        DecodeEncodeIn6(host, s);
        DecodeEncodeIn6(host, b.sin6);
    }
  }

  /**
   * The converse fails: the same record compares equal to itself held in
   * another object exactly when the unwritten bytes agree (for IPv6, only
   * the padding is unwritten).  Two endpoints holding the same record but
   * built by the record constructors may compare unequal.
   */
  lemma UnwrittenBytesDecideEquality(host: Endianness, e: Endpoint, ua: Unwritten, ub: Unwritten)
    ensures Equal(host, e, ua, e, ub) <==> if e.V4? then ua == ub else ua.padding == ub.padding
  {
    var ea, eb := Storage(host, e, ua), Storage(host, e, ub);
    if ea == eb {
      assert ea[SIZEOF_SOCKADDR_IN6 + 1..] == ua.padding;
      assert eb[SIZEOF_SOCKADDR_IN6 + 1..] == ub.padding;
      if e.V4? {
        assert ea[SIZEOF_SOCKADDR_IN..SIZEOF_SOCKADDR_IN6] == ua.tail;
        assert eb[SIZEOF_SOCKADDR_IN..SIZEOF_SOCKADDR_IN6] == ub.tail;
      }
    }
  }

  /**
   * On the endpoints whose unwritten bytes are zero (built by `Endpoint()`,
   * from text, or from raw bytes) `operator==` is exactly identity, and so
   * reflexive, symmetric and transitive.
   */
  lemma EqualIffIdenticalWhenZeroed(host: Endianness, a: Endpoint, b: Endpoint)
    ensures Equal(host, a, ZeroUnwritten, b, ZeroUnwritten) <==> a == b
  {
    EqualOnlyIfIdentical(host, a, ZeroUnwritten, b, ZeroUnwritten);
  }

  /**
   * It is not semantic address equality: an IPv4 endpoint never equals the
   * IPv6 endpoint of its IPv4-mapped address (`::ffff:a.b.c.d`), whatever the
   * ports, addresses and unwritten bytes.
   */
  lemma MappedAddressIsNotEqual(host: Endianness, a: SockaddrIn, ua: Unwritten, b: SockaddrIn6, ub: Unwritten)
    ensures !Equal(host, V4(a), ua, V6(b), ub)
  {
    EqualOnlyIfIdentical(host, V4(a), ua, V6(b), ub);
  }

  /** The port `ToString` shows: `ntohs` of the stored port field. */
  function ShownPort(host: Endianness, e: Endpoint): uint16 {
    match e
    case V4(s) => Ntohs(host, s.port)
    case V6(s) => Ntohs(host, s.port)
  }

  /** The address part `ToString` shows, when `inet_ntop` succeeds; IPv6 in brackets. */
  function ShownHost(lib: InetLib, host: Endianness, e: Endpoint): Option<string> {
    match e
    case V4(s) => lib.ntop4(Store32(host, s.addr))
    case V6(s) =>
      match lib.ntop6(s.addr)
      case Some(ip) => Some("[" + ip + "]")
      case None => None
  }

  /**
   * `Endpoint::ToString`: `ip:port` for IPv4, `[ip]:port` for IPv6 (the
   * IP-literal form of section 3.2.2 of RFC 3986), and the empty text when
   * `inet_ntop` fails.
   */
  function ToString(lib: InetLib, host: Endianness, e: Endpoint): string {
    match ShownHost(lib, host, e)
    case Some(h) => h + ":" + Decimal(ShownPort(host, e))
    case None => ""
  }

  /** Split rendered text at its last colon into the address part and a decimal port. */
  function SplitHostPort(s: string): Option<(string, nat)> {
    match LastIndexOf(s, ':')
    case None => None
    case Some(i) =>
      match ParseDecimal(s[i + 1..])
      case None => None
      case Some(p) => Some((s[..i], p))
  }

  /**
   * `ToString` is empty exactly when `inet_ntop` fails; otherwise it splits
   * back into the shown address and the decimal of the shown port, with the
   * IPv6 address in brackets.
   */
  lemma ToStringSplits(lib: InetLib, host: Endianness, e: Endpoint)
    ensures ToString(lib, host, e) == "" <==> ShownHost(lib, host, e).None?
    ensures ShownHost(lib, host, e).Some? ==>
      SplitHostPort(ToString(lib, host, e)) == Some((ShownHost(lib, host, e).value, ShownPort(host, e) as nat))
  {
    var p := ShownPort(host, e);
    if ShownHost(lib, host, e).Some? {
      var h := ShownHost(lib, host, e).value;
      var s := ToString(lib, host, e);
      assert s == h + [':'] + Decimal(p);
      DecimalHasNoColon(p);
      LastIndexOfBeforeSuffix(h, ':', Decimal(p));
      assert s[|h| + 1..] == Decimal(p);
      assert s[..|h|] == h;
      ParseDecimalOfDecimal(p);
    }
  }

  /** Undo the RFC 3986 brackets around an IPv6 literal. */
  function StripBrackets(h: string): string {
    if |h| >= 2 && h[0] == '[' && h[|h| - 1] == ']' then h[1..|h| - 1] else h
  }

  /** Read back text written by `ToString` through the text constructor. */
  function ParseRendered(lib: InetLib, host: Endianness, s: string): Result<Endpoint, EndpointError> {
    match SplitHostPort(s)
    case None => Failure(CannotParseAddress(s))
    case Some((h, p)) =>
      if p < 0x1_0000 then FromText(lib, host, StripBrackets(h), p) else Failure(CannotParseAddress(s))
  }

  /**
   * What the round trip of text through an endpoint needs of the C library:
   * the text `inet_ntop` writes is read back by `inet_pton` of the same family
   * as the same address, IPv4 text does not look bracketed, and IPv6 text is
   * not also IPv4 text.  The IPv6 facts hold of the formats of section 2.2
   * of RFC 4291; the IPv4 facts are how `inet_pton` and `inet_ntop` treat
   * AF_INET dotted-decimal text.
   */
  ghost predicate Coherent(lib: InetLib) {
    && (forall a: InAddrBytes :: lib.ntop4(a).Some? ==>
          var t := lib.ntop4(a).value; lib.pton4(t) == Some(a) && (t == [] || t[0] != '['))
    && (forall a: In6Addr :: lib.ntop6(a).Some? ==>
          var t := lib.ntop6(a).value; lib.pton4(t).None? && lib.pton6(t) == Some(a))
  }

  /**
   * An endpoint built from text renders to text that builds the same
   * endpoint again: same family, address and port.
   */
  lemma TextRoundTrip(lib: InetLib, host: Endianness, text: string, port: uint16)
    requires Coherent(lib)
    requires FromText(lib, host, text, port).Success?
    requires ToString(lib, host, FromText(lib, host, text, port).value) != ""
    ensures ParseRendered(lib, host, ToString(lib, host, FromText(lib, host, text, port).value))
         == FromText(lib, host, text, port)
  {
    var e := FromText(lib, host, text, port).value;
    ToStringSplits(lib, host, e);
    var h := ShownHost(lib, host, e).value;
    NtohsHtons(host, port);
    match e
    case V4(s) =>
      var a := lib.pton4(text).value;
      Store32Load32(host, a);
      assert Store32(host, s.addr) == a;
      assert StripBrackets(h) == h;
    case V6(s) =>
      var ip := lib.ntop6(s.addr).value;
      assert h == "[" + ip + "]";
      assert StripBrackets(h) == ip;
  }

  /** The result of `Socket::Accept`: the process exits, or a value is returned to the caller. */
  datatype AcceptReturn = Exit(status: int) | Return(fd: int)

  /**
   * `Socket::Accept` as written: a failure other than EINTR is fatal, and
   * EINTR in `errno` yields -1 (retry) even when `accept` succeeded.
   */
  function ClassifyAcceptAsWritten(result: int, errno: int): (r: AcceptReturn)
    ensures r.Exit? <==> result == -1 && errno != EINTR
    ensures r.Exit? ==> r.status == EXIT_FAILURE
    ensures r == Return(-1) <==> errno == EINTR
    ensures result != -1 && errno != EINTR ==> r == Return(result)
  {
    if result == -1 && errno != EINTR then Exit(EXIT_FAILURE)
    else if errno == EINTR then Return(-1)
    else Return(result)
  }

  /** `accept` leaves `errno` alone when it succeeds and sets it when it fails. */
  function ErrnoAfterAccept(before: int, result: int, failure: int): int {
    if result == -1 then failure else before
  }

  /**
   * A stale EINTR drops a connection: after an interrupted `accept`, the next
   * `accept` that succeeds with descriptor `fd` is reported as -1, so the
   * caller retries and the descriptor is never used or closed.
   */
  lemma StaleEintrDropsConnection(fd: int)
    requires fd >= 0
    ensures var errno := ErrnoAfterAccept(ErrnoAfterAccept(0, -1, EINTR), fd, 0);
      ClassifyAcceptAsWritten(fd, errno) == Return(-1)
  {
  }

  /** `Socket::Accept` as evidently intended: `errno` is consulted only when `accept` failed. */
  function ClassifyAccept(result: int, errno: int): (r: AcceptReturn)
    ensures r.Exit? <==> result == -1 && errno != EINTR
    ensures r.Exit? ==> r.status == EXIT_FAILURE
    ensures result != -1 ==> r == Return(result)
    ensures result == -1 && errno == EINTR ==> r == Return(-1)
  {
    if result == -1 then
      if errno != EINTR then Exit(EXIT_FAILURE) else Return(-1)
    else Return(result)
  }

  /** The two classifications differ exactly on a success seen with a stale EINTR. */
  lemma ClassifyAcceptDifference(result: int, errno: int)
    ensures ClassifyAccept(result, errno) != ClassifyAcceptAsWritten(result, errno)
        <==> result != -1 && errno == EINTR
  {
  }
}
