# dbeacon endpoint and arrival-metadata model

This project models the core of dbeacon's POSIX layer, `dbeacon_posix.cpp`, in
Dafny and proves properties about that model.

- **The `address` endpoint.** A 128-byte `sockaddr_storage` holds either an
  IPv4 `sockaddr_in` or an IPv6 `sockaddr_in6`, overlaid on the same bytes.
  The model covers:
  - the queries `family`, `optlevel`, `addrlen`, `is_multicast`,
    `is_unspecified`, `is_equal` and `compare`;
  - the in-place updates `set_family` and `set`, together with the
    constructor;
  - the record-selection part of `parse`.
- **`set_address`.** It fills a membership request from an endpoint.
- **The ancillary-data loop of `RecvMsg`.** It covers hop limit or TTL, and
  `SO_TIMESTAMP`, with the clock fallback.
- **The millisecond conversion of `get_timestamp`.**

The storage is a byte array at fixed offsets. The model uses Linux's layout on
a little-endian machine. Keeping the storage as real bytes preserves two
behaviours that a tagged union would lose:
- `compare` is a `memcmp` of the whole storage;
- `set` leaves untouched every byte it does not copy (the IPv6 flow label and
  scope id, `sin_zero`, the tail of the storage).

Layout and constants:
- The family tag is in bytes 0-1 (host order), the port in bytes 2-3, the IPv4
  address in bytes 4-7 and the IPv6 address in bytes 8-23.
- `AF_INET` = 2, `AF_INET6` = 10, `IPPROTO_IP` = 0, `IPPROTO_IPV6` = 41,
  `IPV6_HOPLIMIT` = 52, `IP_TTL` = 2, `IP_RECVTTL` = 12, `SOL_SOCKET` = 1 and
  `SO_TIMESTAMP` = 29.

Modules:
- **`Bytes` (`bytes.dfy`)** models octet strings: `memcpy` into an array,
  `memcmp` with its order laws, and big-endian and little-endian readings.
- **`Endpoint` (`endpoint.dfy`)** is the `address` class.
  - The class has the `stor` array and the methods `SetFamily`, `Set` and
    `Parse` (with its loop `SelectRecord`).
  - The queries are functions over the storage bytes.
  - Each method is proved against a specification function of its old
    storage: `WithFamily`, `Assigned`, `ParseSpec`.
- **`Transport` (`transport.dfy`)** holds:
  - `SetAddress`;
  - the decode loop `RecvMsg`, proved against `ArrivalTtl` and
    `KernelTimestamp`, which are defined through `LastWhere` ("the last
    matching record wins");
  - `Milliseconds` and `GetTimestamp`.
- **`Wrappers` (`wrappers.dfy`)** holds `Option`.

Some values come from outside the program, so the model takes them as
parameters:
- The resolver (`getaddrinfo` with its hints) is a function `Resolver` from
  host and optional port to an optional list of raw socket addresses.
- The result of `recvmsg` is its length and the control-message chain.
- `gettimeofday` is an `Option<Timeval>` clock reading; `None` means the call
  failed.

## Model

| member | source | states |
|---|---|---|
| Endpoint.Family | dbeacon_posix.cpp:260-262 | The tag is the 16-bit host-order value of bytes 0-1 of the storage. |
| Endpoint.OptLevel | dbeacon_posix.cpp:271-273 | The option level is `IPPROTO_IPV6` exactly when the family is `AF_INET6`; every other family, unknown ones included, gets `IPPROTO_IP`. |
| Endpoint.AddrLen | dbeacon_posix.cpp:275-277 | The length is 28 (`sockaddr_in6`) exactly for `AF_INET6` and 16 (`sockaddr_in`) otherwise. It always covers the port and the family's address. |
| Endpoint.Address.constructor | dbeacon_posix.cpp:247-249 | A new endpoint's storage is 128 zero bytes, so its family is `AF_UNSPEC`. |
| Endpoint.WithFamily | dbeacon_posix.cpp:264-269 | Writing the tag makes `Family` read the new value and keeps bytes 2-127 unchanged. |
| Endpoint.Address.SetFamily | dbeacon_posix.cpp:264-269 | Succeeds exactly for `AF_INET` and `AF_INET6`. On failure the storage is unchanged; on success only the tag changes. |
| Endpoint.Assigned | dbeacon_posix.cpp:367-376 | After `set(sa)` the tag and port are those of sa. The address is sa's `sin6_addr` for `AF_INET6` and sa's `sin_addr` for every other family. |
| Endpoint.AssignedBytes | dbeacon_posix.cpp:367-376 | `set` copies exactly the tag, the port and the family's address bytes. Every other storage byte keeps its old value: flow label, scope id, `sin_zero` and the tail. |
| Endpoint.Address.Set | dbeacon_posix.cpp:367-376 | The method leaves the storage `Assigned(old storage, sa)`. |
| Endpoint.AssignedOverridesFamily | dbeacon_posix.cpp:367-376 | `set_family` followed by `set` has the same effect as `set` alone. |
| Endpoint.AssignedIdempotent | dbeacon_posix.cpp:367-376 | A second `set` with the same record changes nothing. |
| Endpoint.AssignedReadsAsRecord | dbeacon_posix.cpp:367-376 | After `set(sa)`, `is_multicast` and `is_unspecified` answer as they do of sa, whatever the storage held before. The endpoint is `is_equal` to sa exactly when sa's family is known. |
| Endpoint.IsMulticast | dbeacon_posix.cpp:320-326 | `is_multicast`: the first IPv6 address byte is 0xff for `AF_INET6`, `IN_CLASSD` of the host-order address for `AF_INET`, and false otherwise. It only ever holds for a known family. `IsMulticastIsMulticastPrefix` characterises it. |
| Endpoint.V6MulticastIsPrefix | dbeacon_posix.cpp:321-322 | A first byte of 0xff is exactly membership of ff00::/8. |
| Endpoint.V4MulticastIsPrefix | dbeacon_posix.cpp:323-324 | `IN_CLASSD` of the host-order address is exactly membership of 224.0.0.0/4. |
| Endpoint.IsMulticastIsMulticastPrefix | dbeacon_posix.cpp:320-326 | `is_multicast` holds exactly when the address lies in ff00::/8 (`AF_INET6`) or in 224.0.0.0/4 (`AF_INET`). These are the ranges of section 2.7 of RFC 4291 and section 4 of RFC 1112, stated as intervals of the address's numeric value. It is false for every other family. |
| Endpoint.IsUnspecified | dbeacon_posix.cpp:328-334 | `is_unspecified`: every 32-bit word of the IPv6 address is zero for `AF_INET6`, `s_addr == 0` for `AF_INET`, and true for every unknown family. `IsUnspecifiedIsZeroAddress` characterises it. |
| Endpoint.IsUnspecifiedIsZeroAddress | dbeacon_posix.cpp:328-334 | `is_unspecified` holds exactly for an all-zero address of a known family (:: and 0.0.0.0), and for every unknown family. |
| Endpoint.IsEqual | dbeacon_posix.cpp:353-361 | `is_equal`: the tags must agree; then `memcmp` of the IPv6 address for `AF_INET6`, `s_addr` equality for `AF_INET`, and false otherwise. It only holds between endpoints of the same known family. `IsEqualIsSameAddress` characterises it. |
| Endpoint.IsEqualIsSameAddress | dbeacon_posix.cpp:353-361 | `is_equal` holds exactly when both tags are the same known family and the address bytes agree. It is false across families and false for an unknown family, even with itself. |
| Endpoint.IsEqualSymmetric | dbeacon_posix.cpp:353-361 | `is_equal` is symmetric. |
| Endpoint.IsEqualIgnoresPort | dbeacon_posix.cpp:353-361 | Two endpoints of a known family that differ only in their port bytes are `is_equal`. |
| Endpoint.Compare | dbeacon_posix.cpp:363-365 | `compare` gives -1, 0 or 1. |
| Endpoint.CompareIsTotalOrder | dbeacon_posix.cpp:363-365 | `a.compare(a) == 0`. The result is zero exactly for identical storages. Swapping the arguments flips the sign. The order is transitive. |
| Endpoint.CompareIsLexicographic | dbeacon_posix.cpp:363-365 | `compare` is negative exactly when the storages share a prefix and then the first has the smaller byte. |
| Endpoint.CompareFinerThanIsEqual | dbeacon_posix.cpp:363-365 | Identical storages of a known family are `is_equal`. A difference in the port alone makes `compare` nonzero. |
| Bytes.MemCmp | dbeacon_posix.cpp:364 | `memcmp`: the first differing byte, compared as unsigned, decides the sign, which is -1, 0 or 1. `MemCmpZeroIff`, `MemCmpAntisymmetric`, `MemCmpTransitive` and `MemCmpLexicographic` characterise it. |
| Bytes.MemCmpZeroIff | dbeacon_posix.cpp:357 | `memcmp` is zero exactly on identical byte strings. This is the IPv6 branch of `is_equal`. |
| Bytes.MemCmpLexicographic | dbeacon_posix.cpp:364 | `memcmp` is negative exactly at a first differing byte that is smaller. |
| Bytes.CopyInto | dbeacon_posix.cpp:61 | `memcpy` writes the window of the destination and nothing else. |
| Endpoint.IndexOf | dbeacon_posix.cpp:283-284 | `strchr` finds the first occurrence of the character, or reports that there is none. |
| Endpoint.SplitPort | dbeacon_posix.cpp:283-289 | With a '/', the host is the text before the first '/' and the port is the text after it; host, '/' and port rebuild the text. Without a '/', the host is the whole text, and the port is the default port only when `addport` is set. |
| Endpoint.FirstWanted | dbeacon_posix.cpp:303-310 | The result is the index of the first record that is multicast (when the multicast flag is set) or not unspecified (otherwise), or None when no record qualifies. |
| Endpoint.SelectStep | dbeacon_posix.cpp:303-310 | One turn of the loop: after `set` of record i, the storage is wanted exactly when record i is. Record i is then the one selected; otherwise the prefix still holds no wanted record. |
| Endpoint.Wanted | dbeacon_posix.cpp:305-309 | The loop's test: `is_multicast` when multicast is asked for, otherwise not `is_unspecified`. A wanted endpoint always has a known family. |
| Endpoint.AssignedKeepsWanted | dbeacon_posix.cpp:304-309 | The test after `set(sa)` answers as it does of sa. |
| Endpoint.Address.SelectRecord | dbeacon_posix.cpp:303-317 | The loop reports whether a wanted record exists. The storage has seen `set` of every record up to and including the first wanted one, or of all of them. |
| Endpoint.Address.Parse | dbeacon_posix.cpp:279-318 | The verdict and the final storage are those of `ParseSpec`. A failed lookup returns false with the storage unchanged; otherwise the record selection decides. |
| Endpoint.ParseSucceedsIffWantedRecord | dbeacon_posix.cpp:303-317 | `parse` returns true exactly when the lookup succeeds and some record is wanted. |
| Endpoint.ParseKeepsFirstWanted | dbeacon_posix.cpp:303-317 | On success the endpoint has the tag, port and address of the first wanted record, passes the wanted test itself, and has a known family. |
| Endpoint.ParseSuccessHasKnownFamily | dbeacon_posix.cpp:303-317 | When `parse` returns true, the endpoint's family is `AF_INET` or `AF_INET6`. |
| Endpoint.ReplayedReadsAsLast | dbeacon_posix.cpp:303-310 | After a run of `set` calls, the endpoint has the tag, port and address of the last record. |
| Endpoint.ParseFailureKeepsLastTried | dbeacon_posix.cpp:303-317 | On failure the storage is unchanged when the lookup failed or gave no records. Otherwise the endpoint has the tag, port and address of the last record tried. |
| Transport.CopiedAddress | dbeacon_posix.cpp:59-67 | The request's first `addrlen()` bytes are the endpoint's; its remaining bytes are unchanged. |
| Transport.SetAddress | dbeacon_posix.cpp:59-67 | Succeeds exactly for `AF_INET` and `AF_INET6`. On failure the request is unchanged; on success it is `CopiedAddress`. |
| Transport.CopiedAddressIsSameEndpoint | dbeacon_posix.cpp:59-67 | A filled request has the endpoint's tag and port and is `is_equal` to it. |
| Transport.Milliseconds | dbeacon_posix.cpp:385-387 | The seconds times 1000 plus the truncated microseconds over 1000, with each step reduced modulo 2^64. For a normalised timeval nothing wraps, and the result is exactly `sec * 1000 + usec / 1000`. |
| Transport.MillisecondsTruncates | dbeacon_posix.cpp:385-387 | For a normalised timeval whose count fits in 64 bits, no step wraps: the result is the time in whole milliseconds, truncated. |
| Transport.GetTimestamp | dbeacon_posix.cpp:378-390 | A failed clock read gives 0. For a normalised reading the result is the time in truncated milliseconds. |
| Transport.LastWhere | dbeacon_posix.cpp:222-238 | The result is the index of the last record of the chain that matches, or None when no record does. From it, `ArrivalTtl` is the value of the last TTL record (or -1) and `KernelTimestamp` the value of the last `SO_TIMESTAMP` record (or 0). |
| Transport.AppendedRecordOverrides | dbeacon_posix.cpp:222-238 | A record appended to the chain overrides the TTL exactly when it is a TTL record, and the timestamp exactly when it is an `SO_TIMESTAMP` record; otherwise both are kept. |
| Transport.RecvMsg | dbeacon_posix.cpp:214-242 | A negative length is returned with ttl and ts untouched. Otherwise ttl is `ArrivalTtl` and ts is `KernelTimestamp`; a timestamp still 0 becomes `get_timestamp()`. A nonzero clock reading always yields a nonzero ts. |
| Transport.HopLimitExamples | dbeacon_posix.cpp:223-224 | An IPv6 hop-limit record holding 64 arrives as ttl 64. A chain with only a timestamp record arrives with ttl -1. |
| Transport.ZeroKernelTimestampLooksAbsent | dbeacon_posix.cpp:240-242 | A kernel timestamp of exactly 0 ms decodes as 0, which is the value `RecvMsg` replaces with the clock reading. |

## Left out

- The system calls `socket`, `setsockopt`, `bind` and `recvmsg`, and the membership calls in `MulticastListen`, `SSMJoinLeave` and `SetupSocket`. These are operating-system I/O. Only their inputs are modelled: `optlevel`, `addrlen` and `SetAddress`.
- The decision in `SetupSocket` to join the any-source group when `!ssm && is_multicast()`. It is a single conjunction over `is_multicast`, which is modelled.
- The platform `#ifdef` branches. The model fixes Linux: `MCAST_JOIN_GROUP`, `MCAST_JOIN_SOURCE_GROUP`, `SO_TIMESTAMP` and `IP_RECVTTL` are all available. So the legacy `ip_mreq` paths and the `ENOPROTOOPT` stubs of `SSMJoin`/`SSMLeave` are not modelled.
- Transport.SetAddress: its callers ignore the false result. The model states what the function does and claims nothing about the calls that follow it.
- `getaddrinfo`, `gai_strerror` and the `forceFamily` hint. The resolver is a function parameter, and the addresses it returns are assumed to be at least as long as their family's structure.
- The `strncpy` copy of the text into a 128-byte buffer. The model splits the whole text, so truncation of longer texts, or a missing terminator, is not modelled.
- The `addrinfo` list is never freed. Memory is not modelled.
- `print`: its text rendering is done by `inet_ntop` and `snprintf`.
- `perror` and `fprintf` diagnostics.
- RecvMsg: the model does not include `from.set_family(...)` before the call, or the sender address the kernel writes into `from`. Both the family write and its effect (`SetFamily`) are modelled on their own. The model does not check the control-buffer size or `CMSG_NXTHDR`'s walking; the chain is given as a sequence of well-sized records.
- Endpoint.Compare and Bytes.MemCmp: C's `memcmp` promises only the sign. The model returns exactly -1, 0 or 1, so it is no weaker than the source, but more precise than the standard requires.
- Byte order and layout are fixed to Linux on a little-endian host. `ss_family` is read in host order, and `*(int *)` and `*(long *)` are read as little-endian two's complement.
