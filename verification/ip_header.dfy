/** `SocketPing.IPHeader` (src/NetUtilities/SocketPing.cs:12-49): the few
    fields the engine reads from the IP header in front of a received ICMP
    message. IPv4 per section 3.1 of RFC 791, IPv6 per section 3 of RFC 8200. */
module IpHeaderDecoder {
  import opened NetTypes

  datatype IPHeader = IPHeader(
    size: int,                // header length in bytes: where the ICMP message starts
    source: IPAddress,
    destination: IPAddress,
    timeToLive: byte)

  /** The number of bytes `Parse` reads for family `af`. */
  function MinimumLength(af: AddressFamily): nat
  {
    if af == InterNetwork then 20 else 40
  }

  /** `ParseIP`: a copy of `length` bytes starting at `index`, read as an address. */
  function ParseIP(data: seq<byte>, index: nat, length: nat): (a: IPAddress)
    requires index + length <= |data|
    ensures |a.bytes| == length
    ensures forall k :: 0 <= k < length ==> a.bytes[k] == data[index + k]
  {
    IPAddress(data[index..index + length])
  }

  /** `IPHeader.Parse`. IPv4: the header length is the low nibble of byte 0
      counted in 32-bit words, so a multiple of 4 no larger than 60, taken as
      given even below the legal minimum of 20; TTL at byte 8; source and
      destination at 12 and 16. Any other family: a fixed 40-byte IPv6 header
      with the hop limit at byte 7 and the addresses at 8 and 24. */
  function Parse(packet: seq<byte>, af: AddressFamily): (h: IPHeader)
    requires |packet| >= MinimumLength(af)
    ensures af == InterNetwork ==>
              && h.size == (packet[0] % 0x10) * 4
              && h.size % 4 == 0 && 0 <= h.size <= 60
              && h.timeToLive == packet[8]
              && h.source.bytes == packet[12..16]
              && h.destination.bytes == packet[16..20]
              && Family(h.source) == InterNetwork
    ensures af != InterNetwork ==>
              && h.size == 40
              && h.timeToLive == packet[7]
              && h.source.bytes == packet[8..24]
              && h.destination.bytes == packet[24..40]
              && Family(h.source) == InterNetworkV6
  {
    if af == InterNetwork then
      IPHeader((packet[0] % 0x10) * 4, ParseIP(packet, 12, 4), ParseIP(packet, 16, 4), packet[8])
    else
      IPHeader(40, ParseIP(packet, 8, 16), ParseIP(packet, 24, 16), packet[7])
  }

  /** A synthetic IPv4 header (version 4, header length `ihl` words) with
      the given TTL and addresses and every other field zero. */
  function SyntheticV4(ihl: nat, ttl: byte, source: IPAddress, destination: IPAddress): (b: seq<byte>)
    requires ihl < 0x10 && |source.bytes| == 4 && |destination.bytes| == 4
    ensures |b| == 20
  {
    [0x40 + ihl, 0, 0, 0, 0, 0, 0, 0, ttl, 0, 0, 0] + source.bytes + destination.bytes
  }

  /** A synthetic IPv6 header with the given hop limit and addresses. */
  function SyntheticV6(hopLimit: byte, source: IPAddress, destination: IPAddress): (b: seq<byte>)
    requires |source.bytes| == 16 && |destination.bytes| == 16
    ensures |b| == 40
  {
    [0x60, 0, 0, 0, 0, 0, 0, hopLimit] + source.bytes + destination.bytes
  }

  /** Decoding a synthetic IPv4 header, whatever follows it, recovers the
      header length, TTL and both addresses. */
  lemma {:induction false} ParseRecoversV4(ihl: nat, ttl: byte, source: IPAddress, destination: IPAddress, rest: seq<byte>)
    requires ihl < 0x10 && |source.bytes| == 4 && |destination.bytes| == 4
    ensures Parse(SyntheticV4(ihl, ttl, source, destination) + rest, InterNetwork)
            == IPHeader(ihl * 4, source, destination, ttl)
  {
    var b := SyntheticV4(ihl, ttl, source, destination) + rest;
    assert b[12..16] == source.bytes;
    assert b[16..20] == destination.bytes;
  }

  /** Decoding a synthetic IPv6 header recovers its hop limit and addresses. */
  lemma {:induction false} ParseRecoversV6(hopLimit: byte, source: IPAddress, destination: IPAddress, rest: seq<byte>)
    requires |source.bytes| == 16 && |destination.bytes| == 16
    ensures Parse(SyntheticV6(hopLimit, source, destination) + rest, InterNetworkV6)
            == IPHeader(40, source, destination, hopLimit)
  {
    var b := SyntheticV6(hopLimit, source, destination) + rest;
    assert b[8..24] == source.bytes;
    assert b[24..40] == destination.bytes;
  }
}
