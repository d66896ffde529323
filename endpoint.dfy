/** The `address` endpoint of dbeacon: one sockaddr_storage whose bytes hold
    either an IPv4 sockaddr_in or an IPv6 sockaddr_in6, overlaid. The layout is
    Linux's on a little-endian machine: the family tag in bytes 0-1 (host
    order), the port in bytes 2-3, the IPv4 address in bytes 4-7, the IPv6
    flow label in bytes 4-7, the IPv6 address in bytes 8-23 and the IPv6 scope
    id in bytes 24-27. */
module Endpoint {
  import opened Bytes
  import opened Wrappers

  const AF_UNSPEC: nat := 0
  const AF_INET: nat := 2
  const AF_INET6: nat := 10
  const IPPROTO_IP: nat := 0
  const IPPROTO_IPV6: nat := 41

  /** sizeof(struct sockaddr_storage), sizeof(struct sockaddr_in) and
      sizeof(struct sockaddr_in6). */
  const StorageSize: nat := 128
  const SockaddrInSize: nat := 16
  const SockaddrIn6Size: nat := 28

  /** Field offsets and sizes shared by sockaddr_in and sockaddr_in6. */
  const PortAt: nat := 2
  const PortSize: nat := 2
  const V4AddrAt: nat := 4
  const V4AddrSize: nat := 4
  const V6AddrAt: nat := 8
  const V6AddrSize: nat := 16

  /** The sa_family tag in bytes 0-1, read in host (little-endian) order. */
  function Family(s: seq<byte>): (f: nat)
    requires |s| >= 2
    ensures f < 0x1_0000
  {
    s[0] as int + 256 * s[1] as int
  }

  /** The two families the endpoint knows. */
  predicate KnownFamily(f: int) {
    f == AF_INET || f == AF_INET6
  }

  /** A raw socket address: at least a sockaddr_in, and a whole sockaddr_in6
      when its tag says AF_INET6. */
  type Sockaddr = s: seq<byte> | |s| >= SockaddrInSize && (Family(s) == AF_INET6 ==> |s| >= SockaddrIn6Size)
    witness Zeros(SockaddrInSize)

  /** The bytes of one sockaddr_storage. */
  type Storage = s: seq<byte> | |s| == StorageSize
    witness Zeros(StorageSize)

  /** v4()->sin_addr: the four address bytes of the sockaddr_in view. */
  function V4Addr(s: Sockaddr): seq<byte> {
    s[V4AddrAt..V4AddrAt + V4AddrSize]
  }

  /** v6()->sin6_addr: the sixteen address bytes of the sockaddr_in6 view. */
  function V6Addr(s: Sockaddr): seq<byte>
    requires Family(s) == AF_INET6 || |s| >= SockaddrIn6Size
  {
    s[V6AddrAt..V6AddrAt + V6AddrSize]
  }

  /** sin_port / sin6_port, in network order. */
  function Port(s: Sockaddr): seq<byte> {
    s[PortAt..PortAt + PortSize]
  }

  /** The address bytes of the view the family selects; an unknown family is
      read through sockaddr_in, as set() does. */
  function AddressBytes(s: Sockaddr): (a: seq<byte>)
    ensures |a| == if Family(s) == AF_INET6 then V6AddrSize else V4AddrSize
  {
    if Family(s) == AF_INET6 then V6Addr(s) else V4Addr(s)
  }

  /** address::optlevel(): the protocol level of the family's socket options;
      every family other than AF_INET6 gets IPv4's. */
  function OptLevel(s: Sockaddr): (level: nat)
    ensures level == IPPROTO_IP || level == IPPROTO_IPV6
    ensures level == IPPROTO_IPV6 <==> Family(s) == AF_INET6
  {
    if Family(s) == AF_INET6 then IPPROTO_IPV6 else IPPROTO_IP
  }

  /** address::addrlen(): the size of the structure the family uses; every
      family other than AF_INET6 gets sockaddr_in's. The length reaches past
      the port and the family's address, so copying that many bytes carries
      the whole endpoint. */
  function AddrLen(s: Sockaddr): (n: nat)
    ensures n == SockaddrInSize || n == SockaddrIn6Size
    ensures n == SockaddrIn6Size <==> Family(s) == AF_INET6
    ensures n <= |s| && PortAt + PortSize <= n
    ensures (if Family(s) == AF_INET6 then V6AddrAt + V6AddrSize else V4AddrAt + V4AddrSize) <= n
  {
    if Family(s) == AF_INET6 then SockaddrIn6Size else SockaddrInSize
  }

  /** IN_CLASSD on a host-order IPv4 address: its top four bits are 1110. */
  predicate InClassD(a: nat) {
    a / 0x1000_0000 == 0xE
  }

  /** address::is_multicast(): IN6_IS_ADDR_MULTICAST (first address byte
      0xff) for AF_INET6, IN_CLASSD of the host-order address for AF_INET,
      false for any other family. */
  predicate IsMulticast(s: Sockaddr)
    ensures IsMulticast(s) ==> KnownFamily(Family(s))
  {
    if Family(s) == AF_INET6 then V6Addr(s)[0] == 0xff
    else if Family(s) == AF_INET then InClassD(BigEndian(V4Addr(s)))
    else false
  }

  /** address::is_unspecified(): IN6_IS_ADDR_UNSPECIFIED (all four 32-bit
      words of sin6_addr zero) for AF_INET6, s_addr == 0 for AF_INET, and true
      for any other family. A zero test reads the same in either byte order. */
  predicate IsUnspecified(s: Sockaddr)
    ensures !KnownFamily(Family(s)) ==> IsUnspecified(s)
  {
    if Family(s) == AF_INET6 then
      var a := V6Addr(s);
      BigEndian(a[0..4]) == 0 && BigEndian(a[4..8]) == 0 && BigEndian(a[8..12]) == 0 && BigEndian(a[12..16]) == 0
    else if Family(s) == AF_INET then BigEndian(V4Addr(s)) == 0
    else true
  }

  /** address::is_equal(): the tags must agree; then memcmp of sin6_addr for
      AF_INET6, s_addr equality for AF_INET, and false for any other family. */
  predicate IsEqual(s: Sockaddr, t: Sockaddr)
    ensures IsEqual(s, t) ==> Family(s) == Family(t) && KnownFamily(Family(s))
  {
    if Family(s) != Family(t) then false
    else if Family(s) == AF_INET6 then MemCmp(V6Addr(s), V6Addr(t)) == 0
    else if Family(s) == AF_INET then V4Addr(s) == V4Addr(t)
    else false
  }

  /** address::compare(): memcmp over the whole storage. */
  function Compare(s: Storage, t: Storage): (r: int)
    ensures -1 <= r <= 1
  {
    MemCmp(s, t)
  }

  /** The storage after `stor.ss_family = family`: the tag is family, every
      other byte is as before. */
  function WithFamily(s: Storage, family: nat): (r: Storage)
    requires family < 0x1_0000
    ensures Family(r) == family
    ensures forall i :: 2 <= i < StorageSize ==> r[i] == s[i]
  {
    s[0 := family % 256][1 := family / 256]
  }

  /** The bytes address::set() copies from its argument: the tag, the port,
      and sin6_addr for AF_INET6 or sin_addr for every other family. */
  predicate CopiedBySet(sa: Sockaddr, i: nat) {
    i < PortAt + PortSize ||
    if Family(sa) == AF_INET6 then V6AddrAt <= i < V6AddrAt + V6AddrSize
    else V4AddrAt <= i < V4AddrAt + V4AddrSize
  }

  /** The storage after address::set(sa): the tag, the port and the family's
      address come from sa (AssignedBytes: every other byte is as before). */
  function Assigned(s: Storage, sa: Sockaddr): (r: Storage)
    ensures Family(r) == Family(sa) && Port(r) == Port(sa)
    ensures Family(sa) == AF_INET6 ==> V6Addr(r) == V6Addr(sa)
    ensures Family(sa) != AF_INET6 ==> V4Addr(r) == V4Addr(sa)
  {
    var tagged := Splice(s, 0, sa[..PortAt]);
    var addressed :=
      if Family(sa) == AF_INET6 then Splice(tagged, V6AddrAt, V6Addr(sa))
      else Splice(tagged, V4AddrAt, V4Addr(sa));
    Splice(addressed, PortAt, Port(sa))
  }

  /** address::set() copies exactly the tag, the port and the family's
      address: all others bytes (the flow label and scope id of IPv6,
      sin_zero, the rest of the storage) are as before. */
  lemma AssignedBytes(s: Storage, sa: Sockaddr)
    ensures forall i :: 0 <= i < StorageSize ==> Assigned(s, sa)[i] == if CopiedBySet(sa, i) then sa[i] else s[i]
  {
  }

  /** The one endpoint object, `class address`. */
  class Address {
    /** The sockaddr_storage `stor`. */
    const stor: array<byte>

    /** address::address(): a zero-filled storage (family AF_UNSPEC). */
    constructor ()
      ensures fresh(stor) && stor.Length == StorageSize
      ensures stor[..] == Zeros(StorageSize) && Family(stor[..]) == AF_UNSPEC
    {
      stor := new byte[StorageSize](_ => 0);
    }

    /** address::set_family(): refuses every family but AF_INET and AF_INET6,
        leaving the storage alone; otherwise writes only the tag. */
    method SetFamily(family: int) returns (ok: bool)
      requires stor.Length == StorageSize
      modifies stor
      ensures ok <==> KnownFamily(family)
      ensures stor[..] == if ok then WithFamily(old(stor[..]), family) else old(stor[..])
    {
      if family != AF_INET && family != AF_INET6 {
        return false;
      }
      stor[0], stor[1] := family % 256, family / 256;
      ok := true;
    }

    /** address::set(): copies the tag, then the address and the port of the
        sockaddr_in6 view for AF_INET6 and of the sockaddr_in view otherwise. */
    method Set(sa: Sockaddr)
      requires stor.Length == StorageSize
      modifies stor
      ensures stor[..] == Assigned(old(stor[..]), sa)
    {
      CopyInto(stor, 0, sa[..PortAt]);
      assert Family(stor[..]) == Family(sa);
      if Family(stor[..]) == AF_INET6 {
        CopyInto(stor, V6AddrAt, V6Addr(sa));
      } else {
        CopyInto(stor, V4AddrAt, V4Addr(sa));
      }
      CopyInto(stor, PortAt, Port(sa));
    }

    /** The record-selection part of address::parse(): split off the port,
        hand host and port to the resolver, then set() each record in turn
        and stop at the first multicast one (multicast) or the first one that
        is not unspecified (otherwise). */
    method Parse(text: string, multicast: bool, addport: bool, defaultPort: string, resolve: Resolver)
      returns (ok: bool)
      requires stor.Length == StorageSize
      modifies stor
      ensures ParseOutcome(ok, stor[..]) == ParseSpec(old(stor[..]), text, multicast, addport, defaultPort, resolve)
    {
      var split := SplitPort(text, addport, defaultPort);
      var answer := resolve(split.0, split.1);
      if answer.None? {
        return false;
      }
      ok := SelectRecord(answer.value, multicast);
    }

    /** The loop of parse(): set() each record in turn and break at the first
        wanted one; the result says whether one was found. */
    method SelectRecord(records: seq<Sockaddr>, multicast: bool) returns (found: bool)
      requires stor.Length == StorageSize
      modifies stor
      ensures found == FirstWanted(records, multicast).Some?
      ensures stor[..] == Replayed(old(stor[..]), records[..SelectedCount(records, multicast)])
    {
      ghost var start := stor[..];
      var i := 0;
      found := false;
      while i < |records|
        invariant 0 <= i <= |records|
        invariant stor[..] == Replayed(start, records[..i])
        invariant FirstWanted(records[..i], multicast).None?
      {
        SelectStep(start, records, multicast, i);
        Set(records[i]);
        if Wanted(stor[..], multicast) {
          found := true;
          break;
        }
        i := i + 1;
      }
      if !found {
        assert records[..|records|] == records;
      }
    }
  }

  /** strchr: the first index of c in s. */
  function IndexOf(s: string, c: char): (r: Option<nat>)
    ensures r.Some? ==> r.value < |s| && s[r.value] == c && c !in s[..r.value]
    ensures r.None? ==> c !in s
  {
    if s == [] then None
    else if s[0] == c then Some(0)
    else match IndexOf(s[1..], c)
      case None => None
      case Some(k) =>
        assert s[..k + 1] == [s[0]] + s[1..][..k];
        Some(k + 1)
  }

  /** The host and service parse() gives the resolver: with a '/', the text
      before the first one and everything after it; without one, the whole
      text and the default port if addport, no port otherwise. */
  function SplitPort(text: string, addport: bool, defaultPort: string): (r: (string, Option<string>))
    ensures '/' in text ==> r.1.Some? && r.0 + "/" + r.1.value == text && '/' !in r.0
    ensures '/' !in text ==> r.0 == text && r.1 == if addport then Some(defaultPort) else None
  {
    match IndexOf(text, '/')
    case Some(k) =>
      assert text == text[..k] + "/" + text[k + 1..];
      (text[..k], Some(text[k + 1..]))
    case None => (text, if addport then Some(defaultPort) else None)
  }

  /** getaddrinfo() as the resolver it is: host and service in, the ai_addr
      of every record out, or None when the lookup fails. */
  type Resolver = (string, Option<string>) -> Option<seq<Sockaddr>>

  /** The test parse() applies after set() of one record. */
  predicate Wanted(sa: Sockaddr, multicast: bool)
    ensures Wanted(sa, multicast) ==> KnownFamily(Family(sa))
  {
    if multicast then IsMulticast(sa) else !IsUnspecified(sa)
  }

  /** The storage after set() of each record in turn. */
  function Replayed(s: Storage, records: seq<Sockaddr>): Storage {
    if records == [] then s
    else Assigned(Replayed(s, records[..|records| - 1]), records[|records| - 1])
  }

  /** One more set() extends the replay by one record. */
  lemma ReplayedStep(s: Storage, records: seq<Sockaddr>, i: nat)
    requires i < |records|
    ensures Replayed(s, records[..i + 1]) == Assigned(Replayed(s, records[..i]), records[i])
  {
    assert records[..i + 1][..i] == records[..i];
  }

  /** The index of the first wanted record. */
  function FirstWanted(records: seq<Sockaddr>, multicast: bool): (r: Option<nat>)
    ensures r.Some? ==> r.value < |records| && Wanted(records[r.value], multicast)
    ensures r.Some? ==> forall j :: 0 <= j < r.value ==> !Wanted(records[j], multicast)
    ensures r.None? ==> forall j :: 0 <= j < |records| ==> !Wanted(records[j], multicast)
  {
    if records == [] then None
    else if Wanted(records[0], multicast) then Some(0)
    else match FirstWanted(records[1..], multicast)
      case None => None
      case Some(k) => Some(k + 1)
  }

  /** One turn of the loop of parse(): set() of record i into the storage the
      earlier records left yields the next replayed storage, which is wanted
      exactly when the record is, and then record i is the one selected;
      otherwise the prefix still holds no wanted record. */
  lemma SelectStep(s: Storage, records: seq<Sockaddr>, multicast: bool, i: nat)
    requires i < |records|
    requires FirstWanted(records[..i], multicast).None?
    ensures Replayed(s, records[..i + 1]) == Assigned(Replayed(s, records[..i]), records[i])
    ensures Wanted(Assigned(Replayed(s, records[..i]), records[i]), multicast) == Wanted(records[i], multicast)
    ensures Wanted(records[i], multicast) ==>
      FirstWanted(records, multicast) == Some(i) && SelectedCount(records, multicast) == i + 1
    ensures !Wanted(records[i], multicast) ==> FirstWanted(records[..i + 1], multicast).None?
  {
    ReplayedStep(s, records, i);
    AssignedKeepsWanted(Replayed(s, records[..i]), records[i], multicast);
    if Wanted(records[i], multicast) {
      FirstWantedIsFirst(records, multicast, i);
    } else {
      FirstWantedExtends(records, multicast, i);
    }
  }

  /** A wanted record after a prefix with none is the one FirstWanted finds. */
  lemma FirstWantedIsFirst(records: seq<Sockaddr>, multicast: bool, k: nat)
    requires k < |records| && Wanted(records[k], multicast)
    requires FirstWanted(records[..k], multicast).None?
    ensures FirstWanted(records, multicast) == Some(k)
  {
    assert forall j :: 0 <= j < k ==> records[..k][j] == records[j];
  }

  /** A prefix without a wanted record grows by an unwanted one. */
  lemma FirstWantedExtends(records: seq<Sockaddr>, multicast: bool, k: nat)
    requires k < |records| && !Wanted(records[k], multicast)
    requires FirstWanted(records[..k], multicast).None?
    ensures FirstWanted(records[..k + 1], multicast).None?
  {
    assert forall j :: 0 <= j < k ==> records[..k][j] == records[j];
    assert forall j :: 0 <= j <= k ==> records[..k + 1][j] == records[j];
  }

  /** parse()'s verdict together with the storage it leaves. */
  datatype ParseOutcome = ParseOutcome(ok: bool, stor: Storage)

  /** What parse() does: a failed lookup changes nothing; otherwise the
      storage has seen set() of every record up to the first wanted one, or
      of all of them when none is wanted. */
  function ParseSpec(s: Storage, text: string, multicast: bool, addport: bool, defaultPort: string, resolve: Resolver): ParseOutcome {
    var answer := Lookup(text, addport, defaultPort, resolve);
    if answer.None? then ParseOutcome(false, s)
    else
      var records := answer.value;
      ParseOutcome(FirstWanted(records, multicast).Some?, Replayed(s, records[..SelectedCount(records, multicast)]))
  }

  /** How many records parse()'s loop passes to set(): up to and including
      the first wanted one, or all of them. */
  function SelectedCount(records: seq<Sockaddr>, multicast: bool): (n: nat)
    ensures n <= |records|
  {
    match FirstWanted(records, multicast)
    case Some(k) => k + 1
    case None => |records|
  }

  // ----- Properties of the queries -----

  /** A prefix network net/len: the addresses whose top len bits are those of
      net, i.e. net <= addr < net + 2^(width - len) for a net whose low bits
      are zero. */
  ghost predicate InNetwork(addr: seq<byte>, net: seq<byte>, len: nat)
    requires |addr| == |net| && len <= 8 * |addr|
  {
    BigEndian(net) <= BigEndian(addr) < BigEndian(net) + Pow2(8 * |addr| - len)
  }

  /** ff00::/8, the IPv6 multicast prefix of section 2.7 of RFC 4291. */
  const V6MulticastNet: seq<byte> := [0xff] + Zeros(15)

  /** 224.0.0.0/4, the IPv4 host-group class D range of section 4 of RFC 1112. */
  const V4MulticastNet: seq<byte> := [224, 0, 0, 0]

  /** is_multicast() is membership of ff00::/8 for AF_INET6 and of
      224.0.0.0/4 for AF_INET, and false for every other family. */
  lemma IsMulticastIsMulticastPrefix(s: Sockaddr)
    ensures IsMulticast(s) <==>
      (Family(s) == AF_INET6 && InNetwork(AddressBytes(s), V6MulticastNet, 8)) ||
      (Family(s) == AF_INET && InNetwork(AddressBytes(s), V4MulticastNet, 4))
  {
    if Family(s) == AF_INET6 {
      V6MulticastIsPrefix(AddressBytes(s));
    } else if Family(s) == AF_INET {
      V4MulticastIsPrefix(AddressBytes(s));
    }
  }

  /** IN6_IS_ADDR_MULTICAST, a first byte of 0xff, is membership of ff00::/8. */
  lemma V6MulticastIsPrefix(a: seq<byte>)
    requires |a| == V6AddrSize
    ensures a[0] == 0xff <==> InNetwork(a, V6MulticastNet, 8)
  {
    BigEndianZeroIff(Zeros(15));
    assert V6MulticastNet[1..] == Zeros(15);
    assert BigEndian(V6MulticastNet) == 255 * Pow256(15);
    Pow2OfBytes(15);
    LeadingByteSlice(a, 255);
  }

  /** IN_CLASSD of the host-order value is membership of 224.0.0.0/4. */
  lemma V4MulticastIsPrefix(a: seq<byte>)
    requires |a| == V4AddrSize
    ensures InClassD(BigEndian(a)) <==> InNetwork(a, V4MulticastNet, 4)
  {
    assert BigEndian(V4MulticastNet) == 0xE000_0000 by {
      BigEndianZeroIff(V4MulticastNet[1..]);
      assert V4MulticastNet[1..] == Zeros(3);
    }
    assert Pow2(4) == 2 * Pow2(3) == 4 * Pow2(2) == 8 * Pow2(1) == 16;
    Pow2Step8(4);
    Pow2Step8(12);
    Pow2Step8(20);
  }

  /** is_unspecified() holds of the all-zero address ("::" of section 2.5.2 of
      RFC 4291, and 0.0.0.0) and of every family other than AF_INET and
      AF_INET6, and of nothing else. */
  lemma IsUnspecifiedIsZeroAddress(s: Sockaddr)
    ensures IsUnspecified(s) <==> !KnownFamily(Family(s)) || AddressBytes(s) == Zeros(|AddressBytes(s)|)
  {
    var a := AddressBytes(s);
    if Family(s) == AF_INET6 {
      BigEndianZeroIff(a[0..4]);
      BigEndianZeroIff(a[4..8]);
      BigEndianZeroIff(a[8..12]);
      BigEndianZeroIff(a[12..16]);
      assert a == a[0..4] + a[4..8] + a[8..12] + a[12..16];
      assert Zeros(16) == Zeros(4) + Zeros(4) + Zeros(4) + Zeros(4);
    } else if Family(s) == AF_INET {
      BigEndianZeroIff(a);
    }
  }

  /** is_equal() holds exactly when both endpoints carry the same known
      family and the same address bytes: never across families, never for an
      unknown family, and regardless of the port. */
  lemma IsEqualIsSameAddress(s: Sockaddr, t: Sockaddr)
    ensures IsEqual(s, t) <==> Family(s) == Family(t) && KnownFamily(Family(s)) && AddressBytes(s) == AddressBytes(t)
  {
    if Family(s) == Family(t) == AF_INET6 {
      MemCmpZeroIff(V6Addr(s), V6Addr(t));
    }
  }

  /** is_equal() is symmetric. */
  lemma IsEqualSymmetric(s: Sockaddr, t: Sockaddr)
    ensures IsEqual(s, t) == IsEqual(t, s)
  {
    if Family(s) == Family(t) == AF_INET6 {
      MemCmpAntisymmetric(V6Addr(s), V6Addr(t));
    }
  }

  /** Two endpoints that differ only in their port are equal for is_equal()
      when the family is known. */
  lemma IsEqualIgnoresPort(s: Storage, port: seq<byte>)
    requires |port| == PortSize && KnownFamily(Family(s))
    ensures IsEqual(s, Splice(s, PortAt, port))
  {
    var t := Splice(s, PortAt, port);
    assert Family(t) == Family(s);
    if Family(s) == AF_INET6 {
      assert V6Addr(t) == V6Addr(s);
    } else {
      assert V4Addr(t) == V4Addr(s);
    }
    IsEqualIsSameAddress(s, t);
  }

  /** compare() is a total order over storages whose zero is identity:
      compare(a, a) == 0, swapping the arguments flips the sign, and the order
      is transitive. */
  lemma CompareIsTotalOrder(s: Storage, t: Storage, u: Storage)
    ensures Compare(s, s) == 0
    ensures Compare(s, t) == 0 <==> s == t
    ensures Compare(t, s) == -Compare(s, t)
    ensures Compare(s, t) < 0 && Compare(t, u) < 0 ==> Compare(s, u) < 0
  {
    MemCmpZeroIff(s, s);
    MemCmpZeroIff(s, t);
    MemCmpAntisymmetric(s, t);
    MemCmpTransitive(s, t, u);
  }

  /** compare() is lexicographic byte order over the whole storage. */
  lemma CompareIsLexicographic(s: Storage, t: Storage)
    ensures Compare(s, t) < 0 <==> exists k :: 0 <= k < StorageSize && s[..k] == t[..k] && s[k] < t[k]
  {
    MemCmpLexicographic(s, t);
  }

  /** compare() separates more than is_equal(): identical storages of a known
      family are equal, but a port difference alone makes compare() nonzero. */
  lemma CompareFinerThanIsEqual(s: Storage, t: Storage)
    ensures Compare(s, t) == 0 && KnownFamily(Family(s)) ==> IsEqual(s, t)
    ensures Port(s) != Port(t) ==> Compare(s, t) != 0
  {
    MemCmpZeroIff(s, t);
    IsEqualIsSameAddress(s, t);
  }

  // ----- Properties of set_family and set -----

  /** set() after set_family() is set() alone: set overwrites the tag. */
  lemma AssignedOverridesFamily(s: Storage, family: nat, sa: Sockaddr)
    requires family < 0x1_0000
    ensures Assigned(WithFamily(s, family), sa) == Assigned(s, sa)
  {
    var r, r' := Assigned(WithFamily(s, family), sa), Assigned(s, sa);
    assert forall i :: 0 <= i < StorageSize ==> r[i] == r'[i];
  }

  /** set() twice with the same record is set() once. */
  lemma AssignedIdempotent(s: Storage, sa: Sockaddr)
    ensures Assigned(Assigned(s, sa), sa) == Assigned(s, sa)
  {
    var r, r' := Assigned(Assigned(s, sa), sa), Assigned(s, sa);
    assert forall i :: 0 <= i < StorageSize ==> r[i] == r'[i];
  }

  /** After set(sa) the queries answer as they do of sa itself, whatever the
      storage held before; and the endpoint is is_equal() to sa exactly when
      sa's family is known. */
  lemma AssignedReadsAsRecord(s: Storage, sa: Sockaddr)
    ensures IsMulticast(Assigned(s, sa)) == IsMulticast(sa)
    ensures IsUnspecified(Assigned(s, sa)) == IsUnspecified(sa)
    ensures IsEqual(Assigned(s, sa), sa) <==> KnownFamily(Family(sa))
  {
    IsEqualIsSameAddress(Assigned(s, sa), sa);
  }

  /** set() keeps parse()'s test as it is of the record. */
  lemma AssignedKeepsWanted(s: Storage, sa: Sockaddr, multicast: bool)
    ensures Wanted(Assigned(s, sa), multicast) == Wanted(sa, multicast)
  {
    AssignedReadsAsRecord(s, sa);
  }

  /** After a run of set() calls the endpoint reads as the last record: same
      tag, same port, same address bytes. */
  lemma ReplayedReadsAsLast(s: Storage, records: seq<Sockaddr>)
    requires records != []
    ensures var r, last := Replayed(s, records), records[|records| - 1];
      Family(r) == Family(last) && Port(r) == Port(last) && AddressBytes(r) == AddressBytes(last)
  {
  }

  // ----- Properties of parse -----

  /** The records the resolver gives parse() for this text, if any. */
  function Lookup(text: string, addport: bool, defaultPort: string, resolve: Resolver): Option<seq<Sockaddr>> {
    var split := SplitPort(text, addport, defaultPort);
    resolve(split.0, split.1)
  }

  /** parse() succeeds exactly when the lookup succeeds and some record is
      wanted: multicast when asked for multicast, not unspecified otherwise. */
  lemma ParseSucceedsIffWantedRecord(s: Storage, text: string, multicast: bool, addport: bool, defaultPort: string, resolve: Resolver)
    ensures var answer := Lookup(text, addport, defaultPort, resolve);
      ParseSpec(s, text, multicast, addport, defaultPort, resolve).ok <==>
        answer.Some? && exists j :: 0 <= j < |answer.value| && Wanted(answer.value[j], multicast)
  {
  }

  /** On success, the endpoint reads as the first wanted record (same tag,
      port and address), and so is multicast when multicast was asked for and
      not unspecified otherwise. */
  lemma ParseKeepsFirstWanted(s: Storage, text: string, multicast: bool, addport: bool, defaultPort: string, resolve: Resolver, k: nat)
    requires var answer := Lookup(text, addport, defaultPort, resolve);
      answer.Some? && k < |answer.value| && Wanted(answer.value[k], multicast) &&
      forall j :: 0 <= j < k ==> !Wanted(answer.value[j], multicast)
    ensures var outcome, records := ParseSpec(s, text, multicast, addport, defaultPort, resolve), Lookup(text, addport, defaultPort, resolve).value;
      outcome.ok && Wanted(outcome.stor, multicast) && KnownFamily(Family(outcome.stor)) &&
      Family(outcome.stor) == Family(records[k]) && Port(outcome.stor) == Port(records[k]) &&
      AddressBytes(outcome.stor) == AddressBytes(records[k])
  {
    var records := Lookup(text, addport, defaultPort, resolve).value;
    assert FirstWanted(records, multicast) == Some(k);
    assert SelectedCount(records, multicast) == k + 1;
    var prefix := records[..k + 1];
    assert ParseSpec(s, text, multicast, addport, defaultPort, resolve).stor == Replayed(s, prefix);
    ReplayedReadsAsLast(s, prefix);
    ReplayedStep(s, records, k);
    AssignedKeepsWanted(Replayed(s, records[..k]), records[k], multicast);
  }

  /** A successful parse() leaves an endpoint of a known family, IPv4 or
      IPv6. */
  lemma ParseSuccessHasKnownFamily(s: Storage, text: string, multicast: bool, addport: bool, defaultPort: string, resolve: Resolver)
    ensures var outcome := ParseSpec(s, text, multicast, addport, defaultPort, resolve);
      outcome.ok ==> KnownFamily(Family(outcome.stor))
  {
    var answer := Lookup(text, addport, defaultPort, resolve);
    if answer.Some? && FirstWanted(answer.value, multicast).Some? {
      ParseKeepsFirstWanted(s, text, multicast, addport, defaultPort, resolve, FirstWanted(answer.value, multicast).value);
    }
  }

  /** On failure, the endpoint is untouched when the lookup failed or gave no
      records, and otherwise reads as the last record tried. */
  lemma ParseFailureKeepsLastTried(s: Storage, text: string, multicast: bool, addport: bool, defaultPort: string, resolve: Resolver)
    ensures var outcome, answer := ParseSpec(s, text, multicast, addport, defaultPort, resolve), Lookup(text, addport, defaultPort, resolve);
      !outcome.ok ==>
        if answer.None? || answer.value == [] then outcome.stor == s
        else
          var last := answer.value[|answer.value| - 1];
          Family(outcome.stor) == Family(last) && Port(outcome.stor) == Port(last) &&
          AddressBytes(outcome.stor) == AddressBytes(last)
  {
    var answer := Lookup(text, addport, defaultPort, resolve);
    if answer.Some? && FirstWanted(answer.value, multicast).None? {
      assert answer.value[..|answer.value|] == answer.value;
      if answer.value != [] {
        ReplayedReadsAsLast(s, answer.value);
      }
    }
  }
}
