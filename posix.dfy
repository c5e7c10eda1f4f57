/** The Linux values of the system constants the core uses. */
module Posix {
  const AF_INET: int := 2
  const AF_INET6: int := 10
  const PF_INET: int := AF_INET
  const PF_INET6: int := AF_INET6

  const SOCK_STREAM: int := 1
  const SOCK_DGRAM: int := 2

  /** `sizeof(sockaddr_in)` and `sizeof(sockaddr_in6)`. */
  const SIZEOF_SOCKADDR_IN: nat := 16
  const SIZEOF_SOCKADDR_IN6: nat := 28

  /** The errno of a system call interrupted by a signal. */
  const EINTR: int := 4

  const EXIT_FAILURE: int := 1

  /** The wildcard address: accept on any interface. */
  const INADDR_ANY: int := 0
}
