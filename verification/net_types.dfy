/** Value types shared by the ping and traceroute engine: machine integers,
    addresses, the two status enumerations and the reply record a probe
    produces (src/NetUtilities/PingReply.cs). */
module NetTypes {

  /** An unsigned 8-bit value (C# `byte`). */
  type byte = b: int | 0 <= b < 0x100

  /** A signed 16-bit value (C# `Int16` / `short`). */
  type int16 = v: int | -0x8000 <= v < 0x8000

  /** A signed 32-bit value (C# `int`). */
  type int32 = v: int | -0x8000_0000 <= v < 0x8000_0000

  const Int32Max: int32 := 0x7FFF_FFFF

  datatype Option<+T> = None | Some(value: T)

  /** The unchecked `(Int16)` cast of a value in 0..0xFFFF: the same 16-bit
      pattern read as two's complement. */
  function ToInt16(u: int): (v: int16)
    requires 0 <= u <= 0xFFFF
    ensures v % 0x1_0000 == u
    ensures 0 <= u < 0x8000 ==> v == u
  {
    if u < 0x8000 then u else u - 0x1_0000
  }

  /** Unchecked 32-bit wrap-around of an arbitrary integer, as C# `int`
      arithmetic behaves in its default unchecked context. */
  function Wrap32(x: int): (v: int32)
    ensures (v - x) % 0x1_0000_0000 == 0
    ensures -0x8000_0000 <= x < 0x8000_0000 ==> v == x
  {
    var m := x % 0x1_0000_0000;
    if m < 0x8000_0000 then m else m - 0x1_0000_0000
  }

  datatype AddressFamily = InterNetwork | InterNetworkV6

  /** An IP address as its network-order bytes: 4 for IPv4, 16 for IPv6. */
  datatype IPAddress = IPAddress(bytes: seq<byte>)

  function Family(a: IPAddress): AddressFamily
  {
    if |a.bytes| == 4 then InterNetwork else InterNetworkV6
  }

  /** The outcome class of one probe (the library's own `PingStatus`). */
  datatype PingStatus = Success | Fail | Exception

  /** The protocol-level status of a probe; the members of
      `System.Net.NetworkInformation.IPStatus` the engine produces or tests,
      and any other value the host's ping facility may report. */
  datatype IPStatus =
    | Success
    | TtlExpired
    | DestinationUnreachable
    | TimedOut
    | Unknown
    | OtherStatus(code: int)

  /** The diagnostic attached to a reply. */
  datatype Fault =
    | UnexpectedIcmp(icmpType: byte, icmpCode: byte)  // "icmp type=.., code=.."
    | TransportFault                                   // any exception thrown by the socket layer

  /** One probe's reply; `None` stands for a null reference and the numeric
      fields keep their C# default 0 when the code never assigns them. */
  datatype PingReply = PingReply(
    target: IPAddress,
    status: PingStatus,
    address: Option<IPAddress>,
    packetSize: int,
    pingStatus: IPStatus,
    exception: Option<Fault>,
    time: int,
    ttl: int)
}
