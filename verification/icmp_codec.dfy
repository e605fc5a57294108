/** The ICMP echo codec of `SocketPing.IcmpPacket`
    (src/NetUtilities/SocketPing.cs:51-156): message type constants, the echo
    request, the 8-byte header layout (type | code | checksum | identifier |
    sequence, 16-bit fields big-endian) and its parser. */
module IcmpCodec {
  import opened NetTypes
  import InternetChecksum

  /** The four message types the engine distinguishes, per address family. */
  datatype HeaderTypes = HeaderTypes(
    echoRequest: byte,
    echoResponse: byte,
    destUnavailable: byte,
    timeExceeded: byte)

  /** ICMP for IPv4, RFC 792. */
  const HeaderTypesV4: HeaderTypes := HeaderTypes(8, 0, 3, 11)

  /** ICMPv6, section 2.1 of RFC 4443. */
  const HeaderTypesV6: HeaderTypes := HeaderTypes(128, 129, 1, 3)

  predicate Distinct(t: HeaderTypes)
  {
    && t.echoRequest != t.echoResponse
    && t.echoRequest != t.destUnavailable
    && t.echoRequest != t.timeExceeded
    && t.echoResponse != t.destUnavailable
    && t.echoResponse != t.timeExceeded
    && t.destUnavailable != t.timeExceeded
  }

  /** The type table a socket of family `af` uses: IPv4's for `InterNetwork`,
      ICMPv6's for any other family. Within a family no two types coincide,
      so the classification of a reply never depends on the order of tests. */
  function TypesFor(af: AddressFamily): (t: HeaderTypes)
    ensures Distinct(t)
    ensures af == InterNetwork ==> t.echoRequest == 8 && t.echoResponse == 0
    ensures af != InterNetwork ==> t.echoRequest == 128 && t.echoResponse == 129
  {
    if af == InterNetwork then HeaderTypesV4 else HeaderTypesV6
  }

  /** An ICMP message as the struct holds it; a header parsed off the wire
      carries no payload (the struct's null `Payload`). */
  datatype IcmpPacket = IcmpPacket(
    msgType: byte,
    code: byte,
    checksum: int16,
    identifier: int16,
    sequenceNum: int16,
    payload: seq<byte>)

  /** An echo request: type 8 for IPv4 and 128 otherwise, code 0, the
      checksum field left at its default 0 until `ToBytes`. */
  function BuildEchoRequest(af: AddressFamily, identifier: int16, sequenceNum: int16, payload: seq<byte>): (p: IcmpPacket)
    ensures p.msgType == (if af == InterNetwork then 8 else 128)
    ensures p.code == 0 && p.identifier == identifier && p.sequenceNum == sequenceNum && p.payload == payload
  {
    IcmpPacket(TypesFor(af).echoRequest, 0, 0, identifier, sequenceNum, payload)
  }

  // ---------------------------------------------------------------------
  // 16-bit fields, big-endian
  // ---------------------------------------------------------------------

  /** The two bytes the private `Fill(data, index, Int16)` stores: the
      high byte of the value's 16-bit pattern, then the low byte. Dafny's
      `/` and `%` by a positive constant round toward minus infinity, as an
      arithmetic right shift and a truncation to eight bits do on negative
      values. */
  function Int16Bytes(v: int16): (b: seq<byte>)
    ensures |b| == 2
  {
    [(v / 0x100) % 0x100, v % 0x100]
  }

  /** The two bytes at `index`, the first one high, read as a signed
      16-bit value; its bytes are the ones it was read from, so reading
      loses nothing. */
  function ReadInt16(data: seq<byte>, index: nat): (v: int16)
    requires index + 2 <= |data|
    ensures Int16Bytes(v) == data[index..index + 2]
  {
    var u := (data[index] as int) * 0x100 + data[index + 1];
    var v := ToInt16(u);
    Int16BytesOfPattern(v, u);
    v
  }

  /** The bytes of an `int16` are the high and low byte of its 16-bit pattern. */
  lemma Int16BytesOfPattern(v: int16, u: nat)
    requires u <= 0xFFFF && v % 0x1_0000 == u
    ensures Int16Bytes(v) == [u / 0x100, u % 0x100]
  {
    if v < 0 {
      assert v == u - 0x1_0000;
      var h := u / 0x100;
      var l := u % 0x100;
      assert u == h * 0x100 + l;
      assert v == (h - 0x100) * 0x100 + l;
      assert v / 0x100 == h - 0x100;
    }
  }

  /** Writing an `int16` big-endian and reading it back gives the same value. */
  lemma Int16RoundTrip(v: int16)
    ensures ReadInt16(Int16Bytes(v), 0) == v
  {
    var b := Int16Bytes(v);
    var u := v % 0x1_0000;
    Int16BytesOfPattern(v, u);
    assert (b[0] as int) * 0x100 + b[1] == u;
  }

  /** `Fill(data, index, value)`: the two bytes of `value` at `index`, every
      other byte unchanged. */
  function WriteInt16(data: seq<byte>, index: nat, value: int16): (r: seq<byte>)
    requires index + 2 <= |data|
    ensures |r| == |data|
    ensures r[index..index + 2] == Int16Bytes(value)
    ensures forall k :: 0 <= k < |data| && k != index && k != index + 1 ==> r[k] == data[k]
  {
    var b := Int16Bytes(value);
    data[index := b[0]][index + 1 := b[1]]
  }

  // ---------------------------------------------------------------------
  // Header encoding and parsing
  // ---------------------------------------------------------------------

  /** The eight header bytes of `h` in wire order. */
  function HeaderBytes(h: IcmpPacket): (b: seq<byte>)
    ensures |b| == 8
  {
    [h.msgType, h.code] + Int16Bytes(h.checksum) + Int16Bytes(h.identifier) + Int16Bytes(h.sequenceNum)
  }

  /** `IcmpPacket.ParseHeader`: the header at `index`, without payload and
      without checking the checksum. Re-encoding it gives back exactly the
      eight bytes it was read from. */
  function ParseHeader(data: seq<byte>, index: nat): (h: IcmpPacket)
    requires index + 8 <= |data|
    ensures h.payload == []
    ensures h.msgType == data[index] && h.code == data[index + 1]
    ensures HeaderBytes(h) == data[index..index + 8]
  {
    IcmpPacket(
      data[index],
      data[index + 1],
      ReadInt16(data, index + 2),
      ReadInt16(data, index + 4),
      ReadInt16(data, index + 6),
      [])
  }

  /** Parsing the encoding of a header gives the header back, whatever
      follows it. */
  lemma ParseHeaderRoundTrip(h: IcmpPacket, rest: seq<byte>)
    requires h.payload == []
    ensures ParseHeader(HeaderBytes(h) + rest, 0) == h
  {
    var d := HeaderBytes(h) + rest;
    assert d[2..4] == Int16Bytes(h.checksum);
    assert d[4..6] == Int16Bytes(h.identifier);
    assert d[6..8] == Int16Bytes(h.sequenceNum);
    Int16RoundTrip(h.checksum);
    Int16RoundTrip(h.identifier);
    Int16RoundTrip(h.sequenceNum);
    assert ReadInt16(d, 2) == ReadInt16(Int16Bytes(h.checksum), 0);
    assert ReadInt16(d, 4) == ReadInt16(Int16Bytes(h.identifier), 0);
    assert ReadInt16(d, 6) == ReadInt16(Int16Bytes(h.sequenceNum), 0);
  }

  /** A field read back where an `int16` was stored gives that `int16`. */
  lemma ReadWritten(data: seq<byte>, index: nat, v: int16)
    requires index + 2 <= |data| && data[index..index + 2] == Int16Bytes(v)
    ensures ReadInt16(data, index) == v
  {
    Int16RoundTrip(v);
    assert data[index] == Int16Bytes(v)[0] && data[index + 1] == Int16Bytes(v)[1];
  }

  /** Storing the checksum of a packet whose checksum field is zero: the
      receiver's recomputation over the result is 0 (section 1 of RFC 1071),
      and zeroing the field again gives the packet back. */
  lemma ChecksumCompletes(zeroed: seq<byte>, c: int16)
    requires |zeroed| >= 8 && zeroed[2] == 0 && zeroed[3] == 0
    requires c % 0x1_0000 == InternetChecksum.Checksum(zeroed)
    ensures WriteInt16(zeroed, 2, c)[2 := 0][3 := 0] == zeroed
    ensures ReadInt16(WriteInt16(zeroed, 2, c), 2) == c
    ensures InternetChecksum.Checksum(WriteInt16(zeroed, 2, c)) == 0
  {
    var r := WriteInt16(zeroed, 2, c);
    var u := InternetChecksum.Checksum(zeroed);
    Int16BytesOfPattern(c, u);
    assert r == zeroed[2 := (u / 0x100) as byte][3 := (u % 0x100) as byte];
    InternetChecksum.ChecksumOfCompletedPacket(zeroed);
    ReadWritten(r, 2, c);
  }

  /** `IcmpPacket.ToBytes`: header then payload; the checksum is computed
      while bytes 2-3 are still zero and then stored there, so the receiver's
      recomputation over the finished packet yields 0 (section 1 of RFC 1071).
      The struct's own `Checksum` field is not consulted. */
  method ToBytes(p: IcmpPacket) returns (r: seq<byte>)
    ensures |r| == 8 + |p.payload|
    ensures r[0] == p.msgType && r[1] == p.code
    ensures r[8..] == p.payload
    ensures ParseHeader(r, 0).identifier == p.identifier
    ensures ParseHeader(r, 0).sequenceNum == p.sequenceNum
    ensures ParseHeader(r, 0).checksum % 0x1_0000 == InternetChecksum.Checksum(r[2 := 0][3 := 0])
    ensures InternetChecksum.Checksum(r) == 0
  {
    var packet: seq<byte> := seq(8 + |p.payload|, _ => 0);
    packet := packet[0 := p.msgType][1 := p.code];
    packet := WriteInt16(packet, 4, p.identifier);
    packet := WriteInt16(packet, 6, p.sequenceNum);
    packet := packet[..8] + p.payload;               // the payload follows the header
    assert packet[2] == 0 && packet[3] == 0;
    assert packet[4..6] == Int16Bytes(p.identifier);
    assert packet[6..8] == Int16Bytes(p.sequenceNum);
    var c := InternetChecksum.CalcChecksum(packet);
    r := WriteInt16(packet, 2, c);

    ChecksumCompletes(packet, c);
    assert r[4..6] == packet[4..6];
    assert r[6..8] == packet[6..8];
    ReadWritten(r, 4, p.identifier);
    ReadWritten(r, 6, p.sequenceNum);
  }
}
