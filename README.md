# TCP-Server: a Dafny model of its byte-level core

This project models the logic under the socket plumbing of the TCP echo
server (C++). It has three parts.

- **Partial-transfer loops** of `src/Server.cpp`:
  - `readn` reads up to `n` bytes. It zero-fills the buffer first and stops at end of stream or at a chunk that ends in a newline.
  - `writen` writes exactly `n` bytes.
  - The echo handler `StrEcho` builds on both.
  - `GetClientId` reports a client's address and port.
- **The `Endpoint` value** of `src/Socket.cpp`: an IPv4 or IPv6 address record (`std::variant<sockaddr_in, sockaddr_in6>`). The model covers:
  - its constructors: from text, from a record, and from raw bytes with a length;
  - `Domain` and `RawAddr`;
  - byte-wise `operator==`;
  - `ToString`;
  - the way `Socket::Accept` classifies what `accept` returned.
- **Byte order**:
  - `htons`, `ntohs`, `htonl` and `ntohl` against network order (most significant byte first, Appendix B of RFC 791);
  - the root `Server.cpp`'s `InitSockaddrStruct`, which fills an IPv4 address record in that order.

Modelling choices:
- The host's byte order is a parameter (`ByteOrder.Endianness`), so every statement holds on little-endian and big-endian hosts alike.
- The bytes of an endpoint object that hold no record are a parameter too (`Socket.Unwritten`). They are the 12-byte tail of the union behind an IPv4 record and the 3 bytes of padding after the variant's one-byte index (the libstdc++ layout, 32 bytes in all). The initialiser `m_addr = {}` (src/Socket.h:28) value-initialises the variant. With libstdc++, whose variant default constructor is not user-provided, that zeroes all 32 bytes. So `Endpoint()` and the text and raw constructors leave these bytes zero (`Socket.ZeroUnwritten`). Only the record constructors, which initialise `m_addr` from the record, leave them indeterminate.
- A record field holds the number the host reads from it. Its memory image is given by `Socket.EncodeIn` / `Socket.EncodeIn6`.
- A socket is a **script**: the result of each successive `recv` (`Server.RecvResult`) or `write` (`Server.WriteResult`) call.
- The predicates `ReadDecided` / `WriteDecided` state what the kernel guarantees:
  - `recv` returns at most what was asked;
  - a successful `write` accepts at least one byte and at most what was asked.

  They also require that the script is long enough for the loop to end.
- `readn` and `writen` are methods over an `array<byte>` with loop invariants, proved against the specification functions `ReadSpec` and `WriteSpec` over the script. `StrEcho` is a method without a loop that calls them.
- `inet_pton` and `inet_ntop` are uninterpreted functions, the fields of `Socket.InetLib`. The text round trip assumes only what `Socket.Coherent` states of them. The IPv6 half is a property of the text formats of section 2.2 of RFC 4291. The IPv4 half (dotted-decimal text reads back as the same address and never starts with `[`) is how `inet_pton` and `inet_ntop` treat AF_INET; RFC 4291 does not cover it.

Files:
- `wrappers.dfy`: Option and Result.
- `byte_order.dfy`: byte order.
- `text.dfy`: `std::to_string` and its inverse.
- `posix.dfy`: Linux constants.
- `socket.dfy`: `src/Socket.cpp` and `src/Socket.h`.
- `server.dfy`: `src/Server.cpp`.
- `legacy_server.dfy`: the root `Server.cpp`.

## Where `readn` stops

`readn` stops early only when the **last byte of a chunk** is a newline (src/Server.cpp:75), or at end of stream. A newline in the middle of a chunk does not end the read, so where the sender's data is split decides how much is read. `Server.MidChunkNewlineDoesNotStop` makes this concrete.

## Model

| member | source | states |
|---|---|---|
| ByteOrder.Swap16Involution | src/Socket.cpp:16 | swapping the two bytes of a 16-bit value twice gives it back |
| ByteOrder.Swap32Involution | Server.cpp:72 | reversing the four bytes of a 32-bit value twice gives it back |
| ByteOrder.Htons | src/Socket.cpp:16 | `htons`, the identity on a big-endian host and a byte swap otherwise; its contract is in `ByteOrder.NtohsHtons` and `ByteOrder.HtonsStoresNetworkOrder` |
| ByteOrder.Ntohs | src/Socket.cpp:91 | `ntohs`, the inverse of `htons`; its contract is in `ByteOrder.NtohsHtons` |
| ByteOrder.NtohsHtons | src/Socket.cpp:91 | `ntohs(htons(p)) == p` and `htons(ntohs(p)) == p` for every 16-bit `p`, on either host order |
| ByteOrder.Htonl | Server.cpp:72 | `htonl`, the identity on a big-endian host and a byte reversal otherwise; its contract is in `ByteOrder.NtohlHtonl`, `ByteOrder.HtonlStoresNetworkOrder` and `ByteOrder.HtonlZero` |
| ByteOrder.Ntohl | Server.cpp:72 | `ntohl`, the inverse of `htonl`; its contract is in `ByteOrder.NtohlHtonl` |
| ByteOrder.NtohlHtonl | Server.cpp:72 | `ntohl(htonl(x)) == x` and `htonl(ntohl(x)) == x` for every 32-bit `x`, on either host order |
| ByteOrder.Load16Store16 | src/Socket.cpp:47 | reading back the two bytes a 16-bit field is stored as gives the field |
| ByteOrder.Store16Load16 | src/Socket.cpp:47 | any two bytes are the image of the 16-bit field read from them |
| ByteOrder.Load32Store32 | src/Socket.cpp:47 | reading back the four bytes a 32-bit field is stored as gives the field |
| ByteOrder.Store32Load32 | src/Socket.cpp:15 | any four bytes, such as those `inet_pton` writes, are the image of the 32-bit field read from them |
| ByteOrder.HtonsStoresNetworkOrder | src/Socket.cpp:16 | in memory, `htons(x)` is `x` most significant byte first, whatever the host order |
| ByteOrder.HtonlStoresNetworkOrder | Server.cpp:72 | in memory, `htonl(x)` is `x` in big-endian order, whatever the host order |
| ByteOrder.HtonlZero | Server.cpp:23-24 | `htonl(0) == 0` and `ntohl(0) == 0` on either host order |
| Text.DecimalIsCanonical | src/Socket.cpp:91 | `std::to_string` of a port writes at least one digit, only digits, and no leading zero |
| Text.ParseDecimalOfDecimal | src/Socket.cpp:91 | the decimal text of `n` reads back as `n` |
| Socket.SocketTypeValue | src/Socket.h:5-8 | a socket type's value is `SOCK_STREAM` exactly for the stream type and `SOCK_DGRAM` exactly for the datagram type |
| Socket.ErrorMessage | src/Socket.cpp:24 | the texts of the two `std::runtime_error`s the constructors throw (also :54); its contract is in `Socket.BadSizeMessageNamesLength` |
| Socket.BadSizeMessageNamesLength | src/Socket.cpp:54 | the "Bad address size: " message ends in the decimal of the rejected length, which reads back as that length |
| Socket.FromText | src/Socket.cpp:11-26 | the constructor succeeds iff the text parses as IPv4 or IPv6; IPv4 is tried first, so the result is V4 exactly when the IPv4 parse succeeds; a failure is "Cannot parse address" with the text; an IPv4 result has family `AF_INET`, the bytes `inet_pton` wrote as its address and zero padding; an IPv6 result has family `AF_INET6`, the address `inet_pton` wrote and flow information and scope id 0; the shown port is the port argument |
| Socket.DefaultEndpoint | src/Socket.h:12 | a default endpoint holds the IPv4 alternative, so `Domain` is `PF_INET`, but its family field is 0 (AF_UNSPEC); its port, address and padding are all 0 |
| Socket.DecodeEncodeIn | src/Socket.cpp:44-48 | copying a `sockaddr_in` out as bytes and back gives the same record |
| Socket.EncodeDecodeIn | src/Socket.cpp:44-48 | any 16 bytes copied into a `sockaddr_in` and back out are unchanged |
| Socket.DecodeEncodeIn6 | src/Socket.cpp:49-52 | copying a `sockaddr_in6` out as bytes and back gives the same record |
| Socket.EncodeDecodeIn6 | src/Socket.cpp:49-52 | any 28 bytes copied into a `sockaddr_in6` and back out are unchanged |
| Socket.FromSockaddrIn | src/Socket.cpp:28-34 | an endpoint made from a `sockaddr_in` is IPv4 and holds that record unchanged |
| Socket.FromSockaddrIn6 | src/Socket.cpp:36-42 | an endpoint made from a `sockaddr_in6` is IPv6 and holds that record unchanged |
| Socket.FromRaw | src/Socket.cpp:44-56 | the raw constructor succeeds iff the length is 16 or 28; any other length fails with "Bad address size" and that length; on success, `RawAddr` gives back the first `len` bytes and `len` |
| Socket.RawAddr | src/Socket.cpp:72-80 | the size reported is the length of the memory image |
| Socket.Domain | src/Socket.cpp:58-66 | `Endpoint::Domain`; its contract is in `Socket.DomainAgreesWithRawAddr` |
| Socket.DomainAgreesWithRawAddr | src/Socket.cpp:58-66 | `Domain` is `PF_INET` exactly for V4 and `PF_INET6` exactly for V6; `RawAddr`'s size is 16 for V4 and 28 for V6 |
| Socket.FromRawOfRawAddr | src/Socket.cpp:72-80 | passing `RawAddr` of an endpoint to the raw constructor rebuilds the same endpoint |
| Socket.Equal | src/Socket.cpp:82-84 | `Endpoint::operator==` as `memcmp` of the two 32-byte storages; its contract is in `Socket.EqualOnlyIfIdentical`, `Socket.UnwrittenBytesDecideEquality` and `Socket.EqualIffIdenticalWhenZeroed` |
| Socket.EqualOnlyIfIdentical | src/Socket.cpp:82-84 | `operator==` compares the 32 bytes of the variant: the held record's image, the unwritten bytes, and the alternative's index; endpoints it finds equal are identical records of the same family |
| Socket.UnwrittenBytesDecideEquality | src/Socket.cpp:82-84 | the converse fails: the same record held in two objects compares equal exactly when their unwritten bytes agree (for IPv6, the padding only), so identical records held by endpoints from the record constructors may compare unequal |
| Socket.EqualIffIdenticalWhenZeroed | src/Socket.cpp:82-84 | for endpoints whose unwritten bytes are zero (built by `Endpoint()`, from text, or from raw bytes), `operator==` holds exactly when the records are identical, so it is reflexive, symmetric and transitive |
| Socket.MappedAddressIsNotEqual | src/Socket.cpp:82-84 | equality is of encodings, not of IP meaning: an IPv4 endpoint never equals any IPv6 endpoint, such as its IPv4-mapped address, whatever the unwritten bytes |
| Socket.ToString | src/Socket.cpp:86-100 | `Endpoint::ToString`, the shown host, a colon and the decimal shown port, or empty; its contract is in `Socket.ToStringSplits` and `Socket.TextRoundTrip` |
| Socket.ToStringSplits | src/Socket.cpp:86-100 | `ToString` is empty exactly when `inet_ntop` fails; otherwise it is the address (in brackets for IPv6), a colon and the decimal of `ntohs` of the port, and it splits back at its last colon into those two |
| Socket.TextRoundTrip | src/Socket.cpp:11-26 | with `inet_pton` and `inet_ntop` agreeing on their text formats, rendering an endpoint built from text and port, then reading the rendering back through the text constructor, gives the same endpoint |
| Socket.ClassifyAcceptAsWritten | src/Socket.cpp:175-188 | as written: exit with `EXIT_FAILURE` iff `accept` gave -1 and `errno` is not EINTR; -1 is returned iff `errno` is EINTR, even after a success; any other success returns the descriptor |
| Socket.StaleEintrDropsConnection | src/Socket.cpp:183-185 | after an interrupted `accept`, a later successful `accept` that leaves `errno` at EINTR is reported as -1, and its descriptor is lost |
| Socket.ClassifyAccept | src/Socket.cpp:175-188 | as intended: the same fatal case, -1 for an interrupted call, and a successful descriptor is always returned |
| Socket.ClassifyAcceptDifference | src/Socket.cpp:178-187 | the intended and as-written classifications differ exactly on a success seen with a stale EINTR |
| Server.ReadSpec | src/Server.cpp:54-85 | a read never gathers more than asked, and makes no more calls than the script has |
| Server.Deposit | src/Server.cpp:63 | a chunk `recv` returns lands at the current offset; zeros after it up to `n` and the bytes past `n` are untouched |
| Server.Readn | src/Server.cpp:54-85 | `readn` returns -1 on a failed read, else the count gathered, as `ReadSpec` determines; `buf[0..r)` holds the gathered bytes, `buf[r..n)` is zero, and `buf` past `n` is unchanged |
| Server.ReadOfZeroLength | src/Server.cpp:61-62 | with `n == 0`, no `recv` call is made and 0 is returned |
| Server.InterruptedRecvIsTransparent | src/Server.cpp:64-67 | an EINTR before a script changes neither the bytes gathered nor the return value; only the call count grows by one |
| Server.GatheredIsConcatenation | src/Server.cpp:59-84 | the bytes gathered are the received chunks of the calls made, concatenated in order |
| Server.ShortReadReason | src/Server.cpp:71-78 | a successful read that returns fewer than `n` bytes ended because its last call saw end of stream, or received a chunk whose last byte is a newline |
| Server.ReadFailureReason | src/Server.cpp:64-69 | a failed read ended on an error other than EINTR, made by its last call; every earlier error was EINTR |
| Server.ReadOfLineDeliveries | src/Server.cpp:62-82 | chunks delivered one per call, the last one ending in a newline, are all gathered in order and end the read after exactly that many calls |
| Server.ReadOfOpenDeliveries | src/Server.cpp:62-82 | chunks delivered one per call, with no newline at any chunk's end, are all gathered in order, and the read goes on with the rest of the script |
| Server.ChunkingIsInvisible | src/Server.cpp:62-82 | splitting a delivery into chunks where no chunk but the last ends in a newline leaves the return value and the bytes gathered unchanged |
| Server.MidChunkNewlineDoesNotStop | src/Server.cpp:75-78 | a newline inside a chunk does not end the read; the same bytes split just after the newline do |
| Server.WriteSpec | src/Server.cpp:100-119 | a write that succeeds has sent exactly `n` bytes; one that fails has sent fewer |
| Server.Writen | src/Server.cpp:100-119 | `writen` returns `n` on success and -1 on failure, as `WriteSpec` determines; the peer receives `buf` from its start, in order, as far as was accepted, and all of `buf[0..n)` on success |
| Server.WriteOfZeroLength | src/Server.cpp:106-107 | with `n == 0`, no `write` call is made and `n` is returned |
| Server.InterruptedWriteIsTransparent | src/Server.cpp:109-111 | an EINTR before a script changes neither the outcome nor the bytes sent; only the call count grows by one |
| Server.SentIsSumOfCounts | src/Server.cpp:107-118 | the bytes sent are the sum of the counts accepted by the calls made |
| Server.WriteFailureReason | src/Server.cpp:108-113 | a failed write ended on an error other than EINTR, made by its last call, and every earlier error was EINTR |
| Server.ReduceWriteFailure | src/Server.cpp:108-116 | the same, for a script whose first call accepted bytes or was interrupted |
| Server.OneBytePerCall | src/Server.cpp:107-117 | a peer that accepts one byte per call still receives all `n` bytes, in `n` calls |
| Server.EchoCountAsWritten | src/Server.cpp:134 | the count `n-1` converted to `size_t`, as written; its contract is in `Server.EchoCountWrapsOnEmptyRead` and `Server.EchoCount` |
| Server.EchoCountWrapsOnEmptyRead | src/Server.cpp:132-134 | as written, a read of 0 or -1 makes the echo count `n-1` wrap to nearly 2^64, far beyond the 128-byte buffer |
| Server.EchoCount | src/Server.cpp:132-134 | the intended echo count is one less than a positive read count, and 0 otherwise; it agrees with the as-written count for every count the buffer can hold |
| Server.StrEcho | src/Server.cpp:130-136 | `StrEcho`'s output is `Echoed`: the first `EchoCount(r)` bytes `readn` stored in the 128-byte buffer, as far as `writen` got |
| Server.EchoIsReadLessLastByte | src/Server.cpp:130-136 | the echo is empty after a failed or empty read; otherwise it is a prefix of the bytes read less the last one, and all of them when `writen` succeeds |
| Server.EchoOfHello | src/Server.cpp:130-136 | a client that sends "hello\n" in one piece gets "hello" back |
| Server.ReadOfUnterminatedLine | src/Server.cpp:71-84 | a chunk with no final newline, followed by end of stream, is read as that chunk in two calls |
| Server.EchoDropsLastByteWithoutNewline | src/Server.cpp:130-136 | the trim is unconditional: a line sent without its newline, followed by end of stream, is echoed less its last byte |
| Server.GetClientId | src/Server.cpp:25-33 | the client id is the address and port that `Endpoint::ToString` would show for the client's record |
| Server.ClientIdOfTextEndpoint | src/Server.cpp:29-30 | for a record built from IPv4 text and a port, the id's port is that port, and its address is `inet_ntop` of what `inet_pton` read |
| LegacyServer.InitSockaddrStruct | Server.cpp:63-76 | the family field is the argument modulo 2^16; `ntohl` of the address field is `hostlong`; `ntohs` of the port field is `port_number`; the padding is all zero |
| LegacyServer.InitSockaddrStructImage | Server.cpp:70-73 | in memory: the family in host order, then the port and the address most significant byte first whatever the host order, then eight zero bytes |
| LegacyServer.WildcardIsOrderIndependent | Server.cpp:23-24 | the wildcard address `INADDR_ANY` is stored as 0 on little-endian and big-endian hosts alike |
| LegacyServer.ListenAddress | Server.cpp:16-24 | the server's listening address is IPv4, any interface, and shows the port it was given |

## Left out

Not modelled:
- The `socket`, `setsockopt`, `bind`, `listen`, `accept`, `shutdown` and `close` calls, and the `Socket` and `Server` constructors that chain them. They are operating-system I/O whose only logic is "exit on failure". The address the root `Server` constructor binds is modelled, by `LegacyServer.ListenAddress`.
- The fork-per-connection loop, the SIGCHLD handler and `SignalInit`. They are process concurrency and signals.
- The stale `TCP-Server.cpp` variant, which calls functions the headers do not declare.
- The one-shot `Write` helpers. Each is a single `send` or `write` with nothing to prove.
- All logging through `std::cerr`, `std::cout` and `perror`. The `Readn` and `Writen` wrappers add only logging: `Readn` passes `readn`'s result through, and `Writen` drops it. So `StrEcho` is modelled as calling `readn` and `writen` directly.
- `Endpoint::Addr`, an accessor. In the model the endpoint value is the variant itself.
- What the unwritten bytes of an endpoint built by a record constructor (src/Socket.cpp:28-42) hold. They are indeterminate there, and the model takes them as given. So for those endpoints it promises only that endpoints comparing equal are identical (`Socket.EqualOnlyIfIdentical`), and identical records may compare unequal (`Socket.UnwrittenBytesDecideEquality`). Under a library whose variant default constructor is user-provided, such as libc++, `= {}` would not zero the bytes, and this would hold for every constructor.
- SIGPIPE. `writen` calls `write` without MSG_NOSIGNAL (src/Server.cpp:108), and nothing ignores SIGPIPE. A write to a peer that has reset the connection therefore kills the child process. The model instead treats EPIPE like any other error other than EINTR, and `writen` returns -1.
- The internals of `inet_pton` and `inet_ntop`. They are a foreign C library, left uninterpreted.
- The 64-byte text buffer of `ToString`. It is larger than any address text, and the model keeps only "`inet_ntop` fails or not".
- The unreachable `return 0` of `Domain` and the "Empty variant" throw of `RawAddr`. The variant always holds an alternative.
- Script shapes the kernel does not produce:
  - a `recv` longer than asked;
  - a `write` that accepts 0 bytes, on which the source would loop forever;
  - when `readn` or `writen` is run, a script too short to end the loop.

  These are excluded by `ReadDecided` and `WriteDecided`.

Contracts stated weaker than the source:
- Server.GetClientId: the source passes the record's `sin_family` to `inet_ntop`. The model always uses the IPv4 conversion, which is what that family is for records `accept` fills on an IPv4 socket. The source's `std::string` built from the null result of a failed `inet_ntop` is modelled as `None`.
- Server.StrEcho: for a read that returned 0 or -1, the source hands `Writen` the wrapped `n-1`, a length far past the 128-byte buffer. The model uses the corrected count, which writes nothing; see the Findings table.

## Findings

| source | as written | input that shows it | evidently intended | confidence | as-written member | corrected member |
|---|---|---|---|---|---|---|
| src/Socket.cpp:183 | `errno == EINTR` is tested even when `accept` succeeded | an `accept` interrupted by SIGCHLD (`errno` becomes EINTR), then a successful `accept` returning descriptor 5: `errno` is still EINTR, so -1 is returned and descriptor 5 is never used or closed | test `errno` only when `accept` returned -1 | not executed | Socket.StaleEintrDropsConnection | Socket.ClassifyAccept |
| src/Server.cpp:132-134 | `Writen(clientfd, buf, n-1)` with `int n` converted to `size_t` | a client that closes without sending anything makes `readn` return 0, so `n-1` becomes 2^64-1 and `writen` hands `write` a length far past the 128-byte buffer; a failed read (-1) gives 2^64-2 | write nothing when nothing (or an error) was read | not executed | Server.EchoCountWrapsOnEmptyRead | Server.EchoCount |
