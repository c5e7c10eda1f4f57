/**
 * Machine integers and network byte order.
 *
 * `htons`/`ntohs` and `htonl`/`ntohl` reorder the bytes of a 16- or 32-bit
 * value so that its memory image is in network order: most significant octet
 * first (Appendix B of RFC 791).  On a big-endian host they are the identity,
 * on a little-endian host a byte swap.  The host's order is a parameter.
 */
module ByteOrder {

  type byte = x: int | 0 <= x < 0x100
  type uint16 = x: int | 0 <= x < 0x1_0000
  type uint32 = x: int | 0 <= x < 0x1_0000_0000

  datatype Endianness = LittleEndian | BigEndian

  /** Network order is big-endian. */
  const Network: Endianness := BigEndian

  /** The memory image of a 16-bit value stored by a host of the given order. */
  function Store16(order: Endianness, x: uint16): (b: seq<byte>)
    ensures |b| == 2
  {
    match order
    case LittleEndian => [x % 0x100, x / 0x100]
    case BigEndian => [x / 0x100, x % 0x100]
  }

  /** The 16-bit value a host of the given order reads from two bytes. */
  function Load16(order: Endianness, b: seq<byte>): uint16
    requires |b| == 2
  {
    match order
    case LittleEndian => b[0] as int + 0x100 * b[1] as int
    case BigEndian => 0x100 * b[0] as int + b[1] as int
  }

  function Store32(order: Endianness, x: uint32): (b: seq<byte>)
    ensures |b| == 4
  {
    match order
    case LittleEndian => Store16(order, x % 0x1_0000) + Store16(order, x / 0x1_0000)
    case BigEndian => Store16(order, x / 0x1_0000) + Store16(order, x % 0x1_0000)
  }

  function Load32(order: Endianness, b: seq<byte>): uint32
    requires |b| == 4
  {
    match order
    case LittleEndian => Load16(order, b[..2]) + 0x1_0000 * Load16(order, b[2..])
    case BigEndian => 0x1_0000 * Load16(order, b[..2]) + Load16(order, b[2..])
  }

  /** Exchange the two bytes of a 16-bit value. */
  function Swap16(x: uint16): uint16 {
    (x % 0x100) * 0x100 + x / 0x100
  }

  /** Reverse the four bytes of a 32-bit value. */
  function Swap32(x: uint32): uint32 {
    Swap16(x % 0x1_0000) * 0x1_0000 + Swap16(x / 0x1_0000)
  }

  function Htons(host: Endianness, x: uint16): uint16 {
    if host == Network then x else Swap16(x)
  }

  function Ntohs(host: Endianness, x: uint16): uint16 {
    if host == Network then x else Swap16(x)
  }

  function Htonl(host: Endianness, x: uint32): uint32 {
    if host == Network then x else Swap32(x)
  }

  function Ntohl(host: Endianness, x: uint32): uint32 {
    if host == Network then x else Swap32(x)
  }

  lemma Swap16Involution(x: uint16)
    ensures Swap16(Swap16(x)) == x
  {
    var lo, hi := x % 0x100, x / 0x100;
    assert Swap16(x) == lo * 0x100 + hi;
    assert (lo * 0x100 + hi) % 0x100 == hi;
    assert (lo * 0x100 + hi) / 0x100 == lo;
  }

  lemma Swap32Involution(x: uint32)
    ensures Swap32(Swap32(x)) == x
  {
    var lo, hi := x % 0x1_0000, x / 0x1_0000;
    var y := Swap16(lo) * 0x1_0000 + Swap16(hi);
    assert y % 0x1_0000 == Swap16(hi);
    assert y / 0x1_0000 == Swap16(lo);
    Swap16Involution(lo);
    Swap16Involution(hi);
  }

  /** The port round trip: `ntohs(htons(p)) == p` for every 16-bit `p`, on every host. */
  lemma NtohsHtons(host: Endianness, x: uint16)
    ensures Ntohs(host, Htons(host, x)) == x
    ensures Htons(host, Ntohs(host, x)) == x
  {
    Swap16Involution(x);
  }

  /** The address round trip: `ntohl(htonl(a)) == a` for every 32-bit `a`, on every host. */
  lemma NtohlHtonl(host: Endianness, x: uint32)
    ensures Ntohl(host, Htonl(host, x)) == x
    ensures Htonl(host, Ntohl(host, x)) == x
  {
    Swap32Involution(x);
  }

  /** Reading back what was stored gives the value. */
  lemma Load16Store16(order: Endianness, x: uint16)
    ensures Load16(order, Store16(order, x)) == x
  {
  }

  /** Storing what was read gives the bytes. */
  lemma Store16Load16(order: Endianness, b: seq<byte>)
    requires |b| == 2
    ensures Store16(order, Load16(order, b)) == b
  {
    var x := Load16(order, b);
    match order
    case LittleEndian =>
      assert x % 0x100 == b[0] && x / 0x100 == b[1];
    case BigEndian =>
      assert x % 0x100 == b[1] && x / 0x100 == b[0];
  }

  lemma Load32Store32(order: Endianness, x: uint32)
    ensures Load32(order, Store32(order, x)) == x
  {
    var lo, hi := x % 0x1_0000, x / 0x1_0000;
    Load16Store16(order, lo);
    Load16Store16(order, hi);
    var b := Store32(order, x);
    match order
    case LittleEndian =>
      assert b[..2] == Store16(order, lo) && b[2..] == Store16(order, hi);
    case BigEndian =>
      assert b[..2] == Store16(order, hi) && b[2..] == Store16(order, lo);
  }

  lemma Store32Load32(order: Endianness, b: seq<byte>)
    requires |b| == 4
    ensures Store32(order, Load32(order, b)) == b
  {
    var x := Load32(order, b);
    var first, second := Load16(order, b[..2]), Load16(order, b[2..]);
    Store16Load16(order, b[..2]);
    Store16Load16(order, b[2..]);
    match order
    case LittleEndian =>
      assert x % 0x1_0000 == first && x / 0x1_0000 == second;
      assert b == b[..2] + b[2..];
    case BigEndian =>
      assert x % 0x1_0000 == second && x / 0x1_0000 == first;
      assert b == b[..2] + b[2..];
  }

  /**
   * What `htons` is for: whatever the host's order, the memory image of
   * `htons(x)` is `x` in network order, most significant byte first.
   */
  lemma HtonsStoresNetworkOrder(host: Endianness, x: uint16)
    ensures Store16(host, Htons(host, x)) == [x / 0x100, x % 0x100]
  {
    if host == LittleEndian {
      var y := Swap16(x);
      assert y % 0x100 == x / 0x100;
      assert y / 0x100 == x % 0x100;
    }
  }

  /** Likewise for `htonl`: the four bytes of `htonl(x)` in memory are big-endian. */
  lemma HtonlStoresNetworkOrder(host: Endianness, x: uint32)
    ensures Store32(host, Htonl(host, x)) == Store32(Network, x)
  {
    if host == LittleEndian {
      var lo, hi := x % 0x1_0000, x / 0x1_0000;
      var y := Swap32(x);
      assert y % 0x1_0000 == Swap16(hi);
      assert y / 0x1_0000 == Swap16(lo);
      HtonsStoresNetworkOrder(host, hi);
      HtonsStoresNetworkOrder(host, lo);
    }
  }

  /** The wildcard address INADDR_ANY (0) has the same image in either byte order. */
  lemma HtonlZero(host: Endianness)
    ensures Htonl(host, 0) == 0 && Ntohl(host, 0) == 0
  {
  }
}
