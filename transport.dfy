/** The pure decisions around dbeacon's socket calls: copying an endpoint into
    a membership request (set_address), decoding the ancillary data of a
    received datagram (RecvMsg) and turning a timeval into milliseconds
    (get_timestamp). Constants are Linux's on x86-64. */
module Transport {
  import opened Bytes
  import opened Wrappers
  import opened Endpoint

  const SOL_SOCKET: nat := 1
  const IP_TTL: nat := 2
  const IP_RECVTTL: nat := 12
  const SO_TIMESTAMP: nat := 29
  const IPV6_HOPLIMIT: nat := 52

  /** sizeof(int) and sizeof(struct timeval) (two 64-bit longs). */
  const IntSize: nat := 4
  const TimevalSize: nat := 16

  const U64Modulus: nat := 0x1_0000_0000_0000_0000

  type uint64 = x: int | 0 <= x < 0x1_0000_0000_0000_0000
  type int32 = x: int | -0x8000_0000 <= x < 0x8000_0000

  // ----- set_address -----

  /** The sockaddr_storage after set_address(t, addr) succeeds:
      memcpy(&t, &addr.stor, addr.addrlen()). */
  function CopiedAddress(t: Storage, s: Storage): (r: Storage)
    ensures r[..AddrLen(s)] == s[..AddrLen(s)] && r[AddrLen(s)..] == t[AddrLen(s)..]
  {
    Splice(t, 0, s[..AddrLen(s)])
  }

  /** set_address(): refuses an endpoint of unknown family, leaving t as it
      was; otherwise copies the first addrlen() bytes of the endpoint into t. */
  method SetAddress(t: array<byte>, addr: Address) returns (ok: bool)
    requires t.Length == StorageSize && addr.stor.Length == StorageSize
    requires t != addr.stor
    modifies t
    ensures ok <==> KnownFamily(Family(addr.stor[..]))
    ensures t[..] == if ok then CopiedAddress(old(t[..]), addr.stor[..]) else old(t[..])
  {
    var family := Family(addr.stor[..]);
    if family == AF_INET || family == AF_INET6 {
      CopyInto(t, 0, addr.stor[..AddrLen(addr.stor[..])]);
      ok := true;
    } else {
      ok := false;
    }
  }

  /** A request filled by set_address() names the same endpoint as the
      address it was copied from: same tag, same port, is_equal(). */
  lemma CopiedAddressIsSameEndpoint(t: Storage, s: Storage)
    requires KnownFamily(Family(s))
    ensures var r := CopiedAddress(t, s);
      Family(r) == Family(s) && Port(r) == Port(s) && IsEqual(r, s)
  {
    var r := CopiedAddress(t, s);
    var n := AddrLen(s);
    var head := s[..n];
    assert r[..n] == head;
    assert r[0] == head[0] == s[0] && r[1] == head[1] == s[1];
    assert Port(r) == head[PortAt..PortAt + PortSize] == Port(s);
    if Family(s) == AF_INET6 {
      assert V6Addr(r) == head[V6AddrAt..V6AddrAt + V6AddrSize] == V6Addr(s);
    } else {
      assert V4Addr(r) == head[V4AddrAt..V4AddrAt + V4AddrSize] == V4Addr(s);
    }
    IsEqualIsSameAddress(r, s);
  }

  // ----- Timestamps -----

  /** struct timeval: seconds and microseconds, both C longs. */
  datatype Timeval = Timeval(sec: int, usec: int)

  /** C's `/` on integers: the quotient truncated toward zero. */
  function CDiv(a: int, b: nat): int
    requires b > 0
  {
    if a >= 0 then a / b else -((-a) / b)
  }

  /** The seconds times 1000 plus the microseconds over 1000 (truncated),
      computed in a uint64_t: the seconds, the product and the sum are each
      reduced modulo 2^64. When nothing wraps, the result is the plain sum. */
  function Milliseconds(tv: Timeval): (ms: uint64)
    ensures Normalised(tv) ==> ms == tv.sec * 1000 + tv.usec / 1000
  {
    NoWrap(tv);
    var ts := tv.sec % U64Modulus;
    var scaled := ts * 1000 % U64Modulus;
    (scaled + CDiv(tv.usec, 1000)) % U64Modulus
  }

  /** For a normalised timeval none of the reductions changes its operand. */
  lemma NoWrap(tv: Timeval)
    ensures Normalised(tv) ==>
      tv.sec % U64Modulus == tv.sec && tv.sec * 1000 % U64Modulus == tv.sec * 1000 &&
      CDiv(tv.usec, 1000) == tv.usec / 1000 && tv.sec * 1000 + tv.usec / 1000 < U64Modulus
  {
  }

  /** A normalised timeval: non-negative seconds, microseconds below one
      second, and a millisecond count that fits in 64 bits. */
  predicate Normalised(tv: Timeval) {
    0 <= tv.sec && 0 <= tv.usec < 1_000_000 && tv.sec * 1000 + 999 < U64Modulus
  }

  /** For a normalised timeval no step wraps, and the result is the time in
      whole milliseconds, truncated. */
  lemma MillisecondsTruncates(tv: Timeval)
    requires Normalised(tv)
    ensures var ms := Milliseconds(tv);
      ms * 1000 <= tv.sec * 1_000_000 + tv.usec < ms * 1000 + 1000
  {
    var q := tv.usec / 1000;
    assert tv.usec == q * 1000 + tv.usec % 1000;
    var ms := tv.sec * 1000 + q;
    assert ms * 1000 == tv.sec * 1_000_000 + q * 1000;
  }

  /** get_timestamp(): 0 when gettimeofday fails (clock is None), otherwise
      the clock reading in milliseconds. */
  function GetTimestamp(clock: Option<Timeval>): (ms: uint64)
    ensures clock.None? ==> ms == 0
    ensures clock.Some? && Normalised(clock.value) ==>
      ms * 1000 <= clock.value.sec * 1_000_000 + clock.value.usec < ms * 1000 + 1000
  {
    match clock
    case None => 0
    case Some(tv) =>
      if Normalised(tv) then MillisecondsTruncates(tv); Milliseconds(tv)
      else Milliseconds(tv)
  }

  // ----- Ancillary data -----

  /** One control message of the chain recvmsg() returns: cmsg_level,
      cmsg_type and the bytes at CMSG_DATA. */
  datatype ControlRecord = ControlRecord(level: int, kind: int, data: seq<byte>)

  /** IPV6_HOPLIMIT at IPPROTO_IPV6: an int (section 6.3 of RFC 3542). */
  predicate IsHopLimit(c: ControlRecord) {
    c.level == IPPROTO_IPV6 && c.kind == IPV6_HOPLIMIT
  }

  /** IP_RECVTTL at IPPROTO_IP: a single unsigned byte. */
  predicate IsRecvTtl(c: ControlRecord) {
    c.level == IPPROTO_IP && c.kind == IP_RECVTTL
  }

  /** IP_TTL at IPPROTO_IP: an int. */
  predicate IsPlainTtl(c: ControlRecord) {
    c.level == IPPROTO_IP && c.kind == IP_TTL
  }

  /** SO_TIMESTAMP at SOL_SOCKET: a struct timeval. */
  predicate IsTimestamp(c: ControlRecord) {
    c.level == SOL_SOCKET && c.kind == SO_TIMESTAMP
  }

  /** The records that set the hop limit / TTL. */
  predicate IsTtlRecord(c: ControlRecord) {
    IsHopLimit(c) || IsRecvTtl(c) || IsPlainTtl(c)
  }

  /** A record the kernel delivers carries at least the payload its kind
      promises. */
  predicate WellSized(c: ControlRecord) {
    (IsHopLimit(c) || IsPlainTtl(c) ==> |c.data| >= IntSize) &&
    (IsRecvTtl(c) ==> |c.data| >= 1) &&
    (IsTimestamp(c) ==> |c.data| >= TimevalSize)
  }

  type ControlMessage = c: ControlRecord | WellSized(c)
    witness ControlRecord(0, 0, [])

  /** `*(int *)CMSG_DATA(hdr)`: a little-endian 32-bit signed int. */
  function IntAt(data: seq<byte>): (x: int32)
    requires |data| >= IntSize
  {
    assert Pow256(IntSize) == 0x1_0000_0000;
    Signed(LittleEndian(data[..IntSize]), IntSize)
  }

  /** `*(long *)`: a little-endian 64-bit signed long. */
  function LongAt(data: seq<byte>): int
    requires |data| >= 8
  {
    Signed(LittleEndian(data[..8]), 8)
  }

  /** The hop limit or TTL a record carries. */
  function TtlOf(c: ControlMessage): int32
    requires IsTtlRecord(c)
  {
    if IsRecvTtl(c) then c.data[0] else IntAt(c.data)
  }

  /** The timeval of an SO_TIMESTAMP record, in milliseconds. */
  function TimestampOf(c: ControlMessage): uint64
    requires IsTimestamp(c)
  {
    Milliseconds(Timeval(LongAt(c.data[..8]), LongAt(c.data[8..TimevalSize])))
  }

  /** The index of the last record of the chain that `wanted` picks, if any. */
  function LastWhere(control: seq<ControlMessage>, wanted: ControlRecord -> bool): (r: Option<nat>)
    ensures r.None? <==> forall i :: 0 <= i < |control| ==> !wanted(control[i])
    ensures r.Some? ==> r.value < |control| && wanted(control[r.value])
    ensures r.Some? ==> forall j :: r.value < j < |control| ==> !wanted(control[j])
  {
    if control == [] then None
    else if wanted(control[|control| - 1]) then Some(|control| - 1)
    else
      var earlier := control[..|control| - 1];
      var r := LastWhere(earlier, wanted);
      assert forall i :: 0 <= i < |earlier| ==> earlier[i] == control[i];
      r
  }

  /** The ttl the decode loop leaves: the value of the last TTL record, or -1
      when there is none. */
  function ArrivalTtl(control: seq<ControlMessage>): int32
  {
    match LastWhere(control, IsTtlRecord)
    case None => -1
    case Some(i) => TtlOf(control[i])
  }

  /** The timestamp the decode loop leaves: that of the last SO_TIMESTAMP
      record, or 0 when there is none. */
  function KernelTimestamp(control: seq<ControlMessage>): uint64
  {
    match LastWhere(control, IsTimestamp)
    case None => 0
    case Some(i) => TimestampOf(control[i])
  }

  /** A record appended to the chain overrides the ttl exactly when it is a
      TTL record, and the timestamp exactly when it is an SO_TIMESTAMP record;
      otherwise both keep the values the earlier records gave them. */
  lemma {:induction false} AppendedRecordOverrides(control: seq<ControlMessage>, c: ControlMessage)
    ensures ArrivalTtl(control + [c]) == if IsTtlRecord(c) then TtlOf(c) else ArrivalTtl(control)
    ensures KernelTimestamp(control + [c]) == if IsTimestamp(c) then TimestampOf(c) else KernelTimestamp(control)
  {
    assert (control + [c])[..|control|] == control;
  }

  /** The metadata part of RecvMsg(): len is what recvmsg() returned, control
      the chain it filled, ttl and ts the caller's variables and clock what
      gettimeofday would read. A negative length is returned with ttl and ts
      untouched; otherwise ttl starts at -1 and ts at 0, every recognised
      record overwrites its field, and a ts still 0 becomes get_timestamp(). */
  method RecvMsg(len: int, control: seq<ControlMessage>, ttl: int32, ts: uint64, clock: Option<Timeval>)
    returns (n: int, ttl': int32, ts': uint64)
    ensures n == len
    ensures len < 0 ==> ttl' == ttl && ts' == ts
    ensures len >= 0 ==> ttl' == ArrivalTtl(control)
    ensures len >= 0 ==> ts' == if KernelTimestamp(control) == 0 then GetTimestamp(clock) else KernelTimestamp(control)
    ensures len >= 0 && GetTimestamp(clock) != 0 ==> ts' != 0
  {
    n := len;
    if len < 0 {
      return n, ttl, ts;
    }
    ts' := 0;
    ttl' := -1;
    if |control| > 0 {
      for i := 0 to |control|
        invariant ttl' == ArrivalTtl(control[..i])
        invariant ts' == KernelTimestamp(control[..i])
      {
        var hdr := control[i];
        assert control[..i + 1][..i] == control[..i];
        if hdr.level == IPPROTO_IPV6 && hdr.kind == IPV6_HOPLIMIT {
          ttl' := IntAt(hdr.data);
        } else if hdr.level == IPPROTO_IP && hdr.kind == IP_RECVTTL {
          ttl' := hdr.data[0];
        } else if hdr.level == IPPROTO_IP && hdr.kind == IP_TTL {
          ttl' := IntAt(hdr.data);
        } else if hdr.level == SOL_SOCKET && hdr.kind == SO_TIMESTAMP {
          var sec := LongAt(hdr.data[..8]);
          var usec := LongAt(hdr.data[8..TimevalSize]);
          ts' := Milliseconds(Timeval(sec, usec));
        }
      }
    }
    assert control[..|control|] == control;
    if ts' == 0 {
      ts' := GetTimestamp(clock);
    }
  }

  /** A datagram whose only record is an IPv6 hop limit of 64 arrives with
      hop limit 64; one without TTL records arrives with the sentinel -1. */
  lemma HopLimitExamples()
    ensures ArrivalTtl([ControlRecord(IPPROTO_IPV6, IPV6_HOPLIMIT, [64, 0, 0, 0])]) == 64
    ensures ArrivalTtl([ControlRecord(SOL_SOCKET, SO_TIMESTAMP, Zeros(TimevalSize))]) == -1
  {
    var data: seq<byte> := [64, 0, 0, 0];
    assert data[..IntSize] == data;
    assert LittleEndian(data) == 64 by {
      assert data[1..] == [0, 0, 0] && data[1..][1..] == [0, 0] && data[1..][1..][1..] == [0];
    }
  }

  /** A kernel timestamp of exactly 0 ms reads like no timestamp at all, so
      RecvMsg replaces it with the clock. */
  lemma ZeroKernelTimestampLooksAbsent()
    ensures var control := [ControlRecord(SOL_SOCKET, SO_TIMESTAMP, Zeros(TimevalSize))];
      KernelTimestamp(control) == 0
  {
    var c := ControlRecord(SOL_SOCKET, SO_TIMESTAMP, Zeros(TimevalSize));
    TimestampOfZero(c);
    assert LastWhere([c], IsTimestamp) == Some(0);
  }

  /** An all-zero timeval is the timestamp 0. */
  lemma TimestampOfZero(c: ControlMessage)
    requires IsTimestamp(c) && c.data == Zeros(TimevalSize)
    ensures TimestampOf(c) == 0
  {
    assert c.data[..8] == Zeros(8) && c.data[8..TimevalSize] == Zeros(8);
    LongAtZero();
  }

  /** Eight zero bytes read as the long 0. */
  lemma LongAtZero()
    ensures LongAt(Zeros(8)) == 0
  {
    assert Zeros(8)[..8] == Zeros(8);
    LittleEndianZero(8);
  }

  /** Zero bytes read as zero. */
  lemma {:induction false} LittleEndianZero(n: nat)
    ensures LittleEndian(Zeros(n)) == 0
  {
    if n > 0 {
      assert Zeros(n)[1..] == Zeros(n - 1);
      LittleEndianZero(n - 1);
    }
  }
}
