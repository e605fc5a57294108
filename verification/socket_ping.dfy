/** The probe of `SocketPing` (src/NetUtilities/SocketPing.cs:158-278): send
    one echo request, wait for the first received ICMP message that belongs
    to it, and turn what happened into a `PingReply`.

    The socket is replaced by what it delivers. `Arrival` lists, in order,
    the events the receive loop observes; the loop sees no further event once
    the list is exhausted, which is the timer firing while a receive waits. */
module SocketPing {
  import opened NetTypes
  import opened IcmpCodec
  import opened IpHeaderDecoder
  import InternetChecksum
  import Extensions

  /** The identifier every probe of this engine carries, `(short)0x1a2b`. */
  const EchoId: int16 := 0x1a2b

  /** The size of the receive buffer for a payload of `payloadLength`
      bytes: room for the payload plus 48 and 28 bytes of headers. */
  function ReceiveBufferLength(payloadLength: nat): nat
  {
    48 + payloadLength + 28
  }

  // ---------------------------------------------------------------------
  // The reply filter
  // ---------------------------------------------------------------------

  /** The two `continue` tests of the receive loop: a message of the
      family's echo-request type (a copy of an outgoing request) is skipped,
      and so is an echo reply with another identifier. Every other type is
      accepted whatever its identifier field holds. */
  function Accepts(af: AddressFamily, id: int16, h: IcmpPacket): (ok: bool)
    ensures ok ==> h.msgType != TypesFor(af).echoRequest
    ensures ok && h.msgType == TypesFor(af).echoResponse ==> h.identifier == id
    ensures h.msgType != TypesFor(af).echoRequest && h.msgType != TypesFor(af).echoResponse ==> ok
    ensures h.msgType == TypesFor(af).echoResponse && h.identifier == id ==> ok
  {
    var types := TypesFor(af);
    if h.msgType == types.echoRequest then false
    else if h.msgType == types.echoResponse && h.identifier != id then false
    else true
  }

  // ---------------------------------------------------------------------
  // The receive loop
  // ---------------------------------------------------------------------

  /** What the loop of `ReceiveIcmpReplyAsync` observes, one event per step. */
  datatype Arrival =
    | Datagram(bytes: seq<byte>)   // ReceiveFromAnyAsync completes with this datagram
    | ExpiredWhileWaiting          // the token fires during a receive: TaskCanceledException
    | ReceiveFault                 // the receive throws any other exception
    | ExpiredAtCheck               // the loop condition finds the token already cancelled

  /** How the loop ends. `LoopExited` is its `return default` after the
      `while` condition turns false. */
  datatype ReceiveOutcome =
    | Matched(receivedBytes: nat, ip: IPHeader, icmp: IcmpPacket)
    | LoopExited
    | Canceled
    | Faulted

  function Min(a: nat, b: nat): nat { if a <= b then a else b }

  /** The receive buffer after a datagram lands in it: the datagram,
      truncated to the buffer, over its first bytes; later bytes keep what an
      earlier receive left there. */
  function Overwrite(buffer: seq<byte>, d: seq<byte>): (r: seq<byte>)
    ensures |r| == |buffer|
    ensures r[..Min(|d|, |buffer|)] == d[..Min(|d|, |buffer|)]
    ensures r[Min(|d|, |buffer|)..] == buffer[Min(|d|, |buffer|)..]
  {
    var n := Min(|d|, |buffer|);
    d[..n] + buffer[n..]
  }

  datatype Screened = Skip(buffer: seq<byte>) | Take(outcome: ReceiveOutcome)

  /** One pass of the loop body for a received datagram: decode the IP
      header of the whole buffer, then the ICMP header at the offset it
      gives, then filter. A read past the end of the buffer throws. A
      skipped datagram leaves the buffer it was received into; a taken one
      carries the headers decoded from that buffer. */
  function Screen(af: AddressFamily, id: int16, buffer: seq<byte>, d: seq<byte>): (v: Screened)
    ensures v.Skip? ==> v.buffer == Overwrite(buffer, d)
    ensures v.Skip? ==>
              && |buffer| >= MinimumLength(af)
              && Parse(Overwrite(buffer, d), af).size + 8 <= |buffer|
              && !Accepts(af, id, ParseHeader(Overwrite(buffer, d), Parse(Overwrite(buffer, d), af).size))
    ensures v.Take? && v.outcome.Faulted? ==>
              |buffer| < MinimumLength(af) || Parse(Overwrite(buffer, d), af).size + 8 > |buffer|
    ensures v.Take? && v.outcome.Matched? ==>
              && Accepts(af, id, v.outcome.icmp)
              && v.outcome.receivedBytes == Min(|d|, |buffer|)
              && |buffer| >= MinimumLength(af)
              && v.outcome.ip == Parse(Overwrite(buffer, d), af)
              && v.outcome.ip.size + 8 <= |buffer|
              && v.outcome.icmp == ParseHeader(Overwrite(buffer, d), v.outcome.ip.size)
    ensures v.Take? ==> v.outcome.Matched? || v.outcome.Faulted?
  {
    var buf := Overwrite(buffer, d);
    if |buf| < MinimumLength(af) then Take(Faulted)
    else
      var ip := Parse(buf, af);
      if ip.size + 8 > |buf| then Take(Faulted)
      else
        var icmp := ParseHeader(buf, ip.size);
        if Accepts(af, id, icmp) then Take(Matched(Min(|d|, |buffer|), ip, icmp))
        else Skip(buf)
  }

  /** `ReceiveIcmpReplyAsync` on socket family `af` with identifier `id`:
      the first accepted message, in arrival order. */
  function ReceiveIcmpReply(af: AddressFamily, id: int16, buffer: seq<byte>, arrivals: seq<Arrival>): (r: ReceiveOutcome)
    ensures r.Matched? ==> Accepts(af, id, r.icmp)
    ensures r.Matched? ==> r.icmp.msgType != TypesFor(af).echoRequest
    ensures r.Matched? && r.icmp.msgType == TypesFor(af).echoResponse ==> r.icmp.identifier == id
    ensures r.Matched? ==> r.receivedBytes <= |buffer|
    ensures r.LoopExited? ==> ExpiredAtCheck in arrivals
    decreases |arrivals|
  {
    if |arrivals| == 0 then Canceled
    else match arrivals[0]
      case ExpiredAtCheck => LoopExited
      case ExpiredWhileWaiting => Canceled
      case ReceiveFault => Faulted
      case Datagram(d) =>
        match Screen(af, id, buffer, d)
        case Take(o) => o
        case Skip(next) =>
          var r := ReceiveIcmpReply(af, id, next, arrivals[1..]);
          assert arrivals == [arrivals[0]] + arrivals[1..];
          r
  }

  /** The buffer left by a run of datagrams all of which the loop skips,
      or `None` when some event of `ds` is not such a datagram. */
  function SkipRun(af: AddressFamily, id: int16, buffer: seq<byte>, ds: seq<Arrival>): (r: Option<seq<byte>>)
    ensures r.Some? ==> |r.value| == |buffer|
    decreases |ds|
  {
    if |ds| == 0 then Some(buffer)
    else if !ds[0].Datagram? then None
    else match Screen(af, id, buffer, ds[0].bytes)
      case Take(_) => None
      case Skip(next) => SkipRun(af, id, next, ds[1..])
  }

  /** Skipped datagrams leave no trace but the buffer contents: after a
      skipped run the loop continues exactly as if it started there. */
  lemma {:induction false} SkippedPrefixIsDiscarded(af: AddressFamily, id: int16, buffer: seq<byte>, arrivals: seq<Arrival>, k: nat)
    requires k <= |arrivals|
    requires SkipRun(af, id, buffer, arrivals[..k]).Some?
    ensures ReceiveIcmpReply(af, id, buffer, arrivals)
            == ReceiveIcmpReply(af, id, SkipRun(af, id, buffer, arrivals[..k]).value, arrivals[k..])
    decreases k
  {
    if k > 0 {
      var d := arrivals[0].bytes;
      assert arrivals[..k][0] == arrivals[0];
      assert arrivals[..k][1..] == arrivals[1..][..k - 1];
      var next := Screen(af, id, buffer, d).buffer;
      SkippedPrefixIsDiscarded(af, id, next, arrivals[1..], k - 1);
      assert arrivals[1..][k - 1..] == arrivals[k..];
    }
  }

  /** The event at index `k` is a datagram taken with outcome `r` from the
      buffer the skipped events before it left. */
  predicate TakenAt(af: AddressFamily, id: int16, buffer: seq<byte>, arrivals: seq<Arrival>, k: nat, r: ReceiveOutcome)
    requires k < |arrivals|
  {
    && SkipRun(af, id, buffer, arrivals[..k]).Some?
    && arrivals[k].Datagram?
    && Screen(af, id, SkipRun(af, id, buffer, arrivals[..k]).value, arrivals[k].bytes) == Take(r)
  }

  /** A datagram taken after a skipped first event is taken at the next
      index of the whole sequence. */
  lemma TakenAfterSkip(af: AddressFamily, id: int16, buffer: seq<byte>, arrivals: seq<Arrival>, j: nat, r: ReceiveOutcome)
    requires |arrivals| > 0 && arrivals[0].Datagram?
    requires Screen(af, id, buffer, arrivals[0].bytes).Skip?
    requires j < |arrivals| - 1
    requires TakenAt(af, id, Screen(af, id, buffer, arrivals[0].bytes).buffer, arrivals[1..], j, r)
    ensures TakenAt(af, id, buffer, arrivals, j + 1, r)
  {
    var next := Screen(af, id, buffer, arrivals[0].bytes).buffer;
    var rest := arrivals[1..];
    assert arrivals[..j + 1][0] == arrivals[0];
    assert arrivals[..j + 1][1..] == rest[..j];
    assert SkipRun(af, id, buffer, arrivals[..j + 1]) == SkipRun(af, id, next, rest[..j]);
    assert arrivals[j + 1] == rest[j];
  }

  /** A matched message is the first one the loop accepts: every event
      before it is a datagram the loop skipped, and it is taken from the
      buffer those datagrams left behind. */
  lemma {:induction false} MatchedIsFirstAccepted(af: AddressFamily, id: int16, buffer: seq<byte>, arrivals: seq<Arrival>)
    requires ReceiveIcmpReply(af, id, buffer, arrivals).Matched?
    ensures exists k :: 0 <= k < |arrivals| && TakenAt(af, id, buffer, arrivals, k, ReceiveIcmpReply(af, id, buffer, arrivals))
    decreases |arrivals|
  {
    var r := ReceiveIcmpReply(af, id, buffer, arrivals);
    assert |arrivals| > 0 && arrivals[0].Datagram?;
    var v := Screen(af, id, buffer, arrivals[0].bytes);
    if v.Take? {
      assert arrivals[..0] == [];
      assert TakenAt(af, id, buffer, arrivals, 0, r);
    } else {
      var rest := arrivals[1..];
      assert r == ReceiveIcmpReply(af, id, v.buffer, rest);
      MatchedIsFirstAccepted(af, id, v.buffer, rest);
      var j :| 0 <= j < |rest| && TakenAt(af, id, v.buffer, rest, j, r);
      TakenAfterSkip(af, id, buffer, arrivals, j, r);
    }
  }

  /** Conversely, a datagram taken after a run of skipped ones is what the
      loop returns: together with `MatchedIsFirstAccepted`, the loop returns
      exactly the first message it accepts. */
  lemma TakenIsMatched(af: AddressFamily, id: int16, buffer: seq<byte>, arrivals: seq<Arrival>, k: nat, r: ReceiveOutcome)
    requires k < |arrivals| && TakenAt(af, id, buffer, arrivals, k, r)
    ensures ReceiveIcmpReply(af, id, buffer, arrivals) == r
  {
    SkippedPrefixIsDiscarded(af, id, buffer, arrivals, k);
    assert arrivals[k..][0] == arrivals[k];
  }

  /** Conversely to `TakenIsMatched`: once a run of skipped datagrams is
      over, the next event decides the outcome. The timer firing during a
      receive, or the events running out, is a cancellation; any other
      receive exception is a fault; the loop test finding the timer fired
      is the `return default` exit. */
  lemma FirstUnskippedEventDecides(af: AddressFamily, id: int16, buffer: seq<byte>, arrivals: seq<Arrival>, k: nat)
    requires k <= |arrivals| && SkipRun(af, id, buffer, arrivals[..k]).Some?
    ensures k == |arrivals| ==> ReceiveIcmpReply(af, id, buffer, arrivals) == Canceled
    ensures k < |arrivals| && arrivals[k] == ExpiredWhileWaiting ==> ReceiveIcmpReply(af, id, buffer, arrivals) == Canceled
    ensures k < |arrivals| && arrivals[k] == ReceiveFault ==> ReceiveIcmpReply(af, id, buffer, arrivals) == Faulted
    ensures k < |arrivals| && arrivals[k] == ExpiredAtCheck ==> ReceiveIcmpReply(af, id, buffer, arrivals) == LoopExited
  {
    SkippedPrefixIsDiscarded(af, id, buffer, arrivals, k);
    if k < |arrivals| {
      assert arrivals[k..][0] == arrivals[k];
    } else {
      assert arrivals[k..] == [];
    }
  }

  /** A datagram long enough to hold the IP header it announces and the
      8-byte ICMP header after it. */
  predicate Complete(af: AddressFamily, d: seq<byte>)
  {
    |d| >= MinimumLength(af) && Parse(d, af).size + 8 <= |d|
  }

  /** A complete datagram the filter refuses on its own bytes: an echo
      request, or an echo reply carrying another identifier. */
  predicate Foreign(af: AddressFamily, id: int16, d: seq<byte>)
  {
    Complete(af, d) && !Accepts(af, id, ParseHeader(d, Parse(d, af).size))
  }

  /** A complete datagram that fits the buffer is judged on its own bytes:
      stale buffer contents past its end are never read. */
  lemma ScreenReadsDatagramOnly(af: AddressFamily, id: int16, buffer: seq<byte>, d: seq<byte>)
    requires Complete(af, d) && |d| <= |buffer|
    ensures var buf := Overwrite(buffer, d);
            && Parse(buf, af) == Parse(d, af)
            && ParseHeader(buf, Parse(d, af).size) == ParseHeader(d, Parse(d, af).size)
    ensures Foreign(af, id, d) <==> Screen(af, id, buffer, d).Skip?
  {
    var buf := Overwrite(buffer, d);
    assert buf[..|d|] == d;
    var ip := Parse(d, af);
    assert buf[ip.size..ip.size + 8] == d[ip.size..ip.size + 8];
    assert HeaderBytes(ParseHeader(buf, ip.size)) == HeaderBytes(ParseHeader(d, ip.size));
    ParseHeaderRoundTrip(ParseHeader(buf, ip.size), []);
    ParseHeaderRoundTrip(ParseHeader(d, ip.size), []);
    assert HeaderBytes(ParseHeader(buf, ip.size)) + [] == HeaderBytes(ParseHeader(d, ip.size)) + [];
  }

  /** A complete datagram that fits the buffer and is not foreign is taken
      with its own length and the IP and ICMP headers decoded from its own
      bytes. */
  lemma ScreenTakesDatagram(af: AddressFamily, id: int16, buffer: seq<byte>, d: seq<byte>)
    requires Complete(af, d) && |d| <= |buffer| && !Foreign(af, id, d)
    ensures Screen(af, id, buffer, d) == Take(Matched(|d|, Parse(d, af), ParseHeader(d, Parse(d, af).size)))
  {
    ScreenReadsDatagramOnly(af, id, buffer, d);
  }

  /** Echo requests and other sessions' echo replies never end the wait:
      when nothing else arrives, the receive ends by timing out. */
  lemma {:induction false} ForeignTrafficTimesOut(af: AddressFamily, id: int16, buffer: seq<byte>, arrivals: seq<Arrival>)
    requires forall k :: 0 <= k < |arrivals| ==>
               arrivals[k].Datagram? && |arrivals[k].bytes| <= |buffer| && Foreign(af, id, arrivals[k].bytes)
    ensures ReceiveIcmpReply(af, id, buffer, arrivals) == Canceled
    decreases |arrivals|
  {
    if |arrivals| > 0 {
      var d := arrivals[0].bytes;
      ScreenReadsDatagramOnly(af, id, buffer, d);
      var next := Screen(af, id, buffer, d).buffer;
      assert forall k :: 0 <= k < |arrivals| - 1 ==> arrivals[1..][k] == arrivals[k + 1];
      ForeignTrafficTimesOut(af, id, next, arrivals[1..]);
    }
  }

  // ---------------------------------------------------------------------
  // Classification
  // ---------------------------------------------------------------------

  /** The reply for a received message (lines 194-225): its size, sender and
      TTL, and a status from its ICMP type. */
  function ReplyFromHeaders(
    target: IPAddress, packetSize: nat, source: Option<IPAddress>, ttl: byte,
    msgType: byte, code: byte, elapsedMs: int): (reply: PingReply)
    ensures reply.target == target && reply.address == source && reply.ttl == ttl
    ensures reply.packetSize == packetSize && reply.time == elapsedMs
    ensures var types := TypesFor(Family(target));
            && (reply.status == PingStatus.Success <==> msgType == types.echoResponse)
            && (reply.status != PingStatus.Success ==> reply.status == Fail)
            && (reply.pingStatus == IPStatus.Success <==> msgType == types.echoResponse)
            && (reply.pingStatus == TtlExpired <==> msgType == types.timeExceeded)
            && (reply.pingStatus == DestinationUnreachable <==> msgType == types.destUnavailable)
            && (reply.pingStatus == Unknown <==>
                  msgType !in {types.echoResponse, types.timeExceeded, types.destUnavailable})
            && (reply.exception.Some? <==> reply.pingStatus == Unknown)
            && (reply.exception.Some? ==> reply.exception == Some(UnexpectedIcmp(msgType, code)))
  {
    var types := TypesFor(Family(target));
    var base := PingReply(target, Fail, source, packetSize, Unknown, None, elapsedMs, ttl);
    if msgType == types.echoResponse then
      base.(status := PingStatus.Success, pingStatus := IPStatus.Success)
    else if msgType == types.timeExceeded then
      base.(pingStatus := TtlExpired)
    else if msgType == types.destUnavailable then
      base.(pingStatus := DestinationUnreachable)
    else
      base.(exception := Some(UnexpectedIcmp(msgType, code)))
  }

  /** `catch (TaskCanceledException)`: no reply within the timeout. */
  function TimedOutReply(target: IPAddress): PingReply
  {
    PingReply(target, Fail, None, 0, TimedOut, None, 0, 0)
  }

  /** `catch (Exception e)`: any other failure. */
  function FaultReply(target: IPAddress): PingReply
  {
    PingReply(target, PingStatus.Exception, None, 0, Unknown, Some(TransportFault), 0, 0)
  }

  /** The reply for a settled receive as evidently intended, with the
      loop's own cancellation exit reported as a timeout (the source reports
      it otherwise; see `ReplyForAsWritten`). Success means exactly that an
      echo reply was accepted, and a timeout exactly that nothing was. */
  function ReplyFor(target: IPAddress, outcome: ReceiveOutcome, elapsedMs: int): (reply: PingReply)
    ensures reply.target == target
    ensures var types := TypesFor(Family(target));
            && (reply.status == PingStatus.Success <==> outcome.Matched? && outcome.icmp.msgType == types.echoResponse)
            && (reply.pingStatus == IPStatus.Success <==> reply.status == PingStatus.Success)
            && (reply.pingStatus == TtlExpired <==> outcome.Matched? && outcome.icmp.msgType == types.timeExceeded)
            && (reply.pingStatus == DestinationUnreachable <==>
                  outcome.Matched? && outcome.icmp.msgType == types.destUnavailable)
            && (reply.pingStatus == TimedOut <==> outcome.Canceled? || outcome.LoopExited?)
            && (reply.status == PingStatus.Exception <==> outcome.Faulted?)
            && (reply.pingStatus == Unknown <==>
                  outcome.Faulted? ||
                  (outcome.Matched? &&
                   outcome.icmp.msgType !in {types.echoResponse, types.timeExceeded, types.destUnavailable}))
            && (reply.exception.Some? <==> reply.pingStatus == Unknown)
    ensures outcome.Faulted? ==> reply.exception == Some(TransportFault)
    ensures outcome.Matched? && reply.pingStatus == Unknown ==>
              reply.exception == Some(UnexpectedIcmp(outcome.icmp.msgType, outcome.icmp.code))
    ensures reply.address.Some? <==> outcome.Matched?
    ensures outcome.Matched? ==>
              && reply.address == Some(outcome.ip.source)
              && reply.ttl == outcome.ip.timeToLive
              && reply.packetSize == outcome.receivedBytes
              && reply.time == elapsedMs
  {
    match outcome
    case Matched(n, ip, icmp) =>
      ReplyFromHeaders(target, n, Some(ip.source), ip.timeToLive, icmp.msgType, icmp.code, elapsedMs)
    case LoopExited => TimedOutReply(target)
    case Canceled => TimedOutReply(target)
    case Faulted => FaultReply(target)
  }

  /** The same, as the source is written: after `return default` the caller
      reads a zero packet size, a null sender, TTL 0 and an ICMP header of
      type 0 and code 0. */
  function ReplyForAsWritten(target: IPAddress, outcome: ReceiveOutcome, elapsedMs: int): (reply: PingReply)
    ensures !outcome.LoopExited? ==> reply == ReplyFor(target, outcome, elapsedMs)
    ensures outcome.LoopExited? ==> reply.address == None && reply.packetSize == 0 && reply.ttl == 0
    ensures outcome.LoopExited? && Family(target) == InterNetwork ==>
              reply.status == PingStatus.Success && reply.pingStatus == IPStatus.Success
    ensures outcome.LoopExited? && Family(target) != InterNetwork ==>
              reply.status == Fail && reply.pingStatus == Unknown && reply.exception == Some(UnexpectedIcmp(0, 0))
  {
    if outcome.LoopExited? then ReplyFromHeaders(target, 0, None, 0, 0, 0, elapsedMs)
    else ReplyFor(target, outcome, elapsedMs)
  }

  /** A skipped datagram followed by the loop test finding the timer
      already fired: the loop exits through `return default`. */
  lemma ForeignThenExpiryExitsLoop(af: AddressFamily, id: int16, buffer: seq<byte>, d: seq<byte>)
    requires |d| <= |buffer| && Foreign(af, id, d)
    ensures ReceiveIcmpReply(af, id, buffer, [Datagram(d), ExpiredAtCheck]) == LoopExited
  {
    ScreenReadsDatagramOnly(af, id, buffer, d);
    assert [Datagram(d), ExpiredAtCheck][1..] == [ExpiredAtCheck];
  }

  /** As written, an IPv4 probe whose timer fires between a skipped datagram
      and the next loop test reports `Success` with no responder: type 0 is
      the IPv4 echo-reply type. */
  lemma ForeignReplyThenExpiryReportsSuccess(target: IPAddress, buffer: seq<byte>, d: seq<byte>, elapsedMs: int)
    requires Family(target) == InterNetwork
    requires |d| <= |buffer| && Foreign(InterNetwork, EchoId, d)
    ensures var outcome := ReceiveIcmpReply(InterNetwork, EchoId, buffer, [Datagram(d), ExpiredAtCheck]);
            && outcome == LoopExited
            && ReplyForAsWritten(target, outcome, elapsedMs).status == PingStatus.Success
            && ReplyForAsWritten(target, outcome, elapsedMs).pingStatus == IPStatus.Success
            && ReplyForAsWritten(target, outcome, elapsedMs).address == None
            && ReplyFor(target, outcome, elapsedMs).pingStatus == TimedOut
  {
    ForeignThenExpiryExitsLoop(InterNetwork, EchoId, buffer, d);
  }

  /** Such a datagram exists: a 28-byte IPv4 echo reply whose identifier is
      0x1a2c instead of 0x1a2b. */
  lemma ForeignEchoReplyExists(source: IPAddress, destination: IPAddress)
    requires |source.bytes| == 4 && |destination.bytes| == 4
    ensures var d := SyntheticV4(5, 64, source, destination) + HeaderBytes(IcmpPacket(0, 0, 0, 0x1a2c, 0, []));
            |d| == 28 && Foreign(InterNetwork, EchoId, d)
  {
    var h := IcmpPacket(0, 0, 0, 0x1a2c, 0, []);
    var ipBytes := SyntheticV4(5, 64, source, destination);
    var d := ipBytes + HeaderBytes(h);
    ParseRecoversV4(5, 64, source, destination, HeaderBytes(h));
    assert d[20..] == HeaderBytes(h) + [];
    ParseHeaderRoundTrip(h, []);
    assert ParseHeader(d, 20) == ParseHeader(HeaderBytes(h) + [], 0);
  }

  // ---------------------------------------------------------------------
  // The probe
  // ---------------------------------------------------------------------

  /** What the socket does for one probe: whether configuring or sending
      throws, the events the receive loop observes, and the elapsed
      milliseconds the clock reports when a message is accepted. */
  datatype Network = Network(sendFault: bool, arrivals: seq<Arrival>, elapsedMs: int)

  /** `SocketPing.RunAsync`: build and send an echo request with identifier
      0x1a2b and sequence 0, receive into a zeroed buffer, classify as the
      source does, `return default` exit included. Also returns the bytes
      handed to the socket. */
  method RunAsync(target: IPAddress, buffer: seq<byte>, net: Network) returns (reply: PingReply, sent: seq<byte>)
    ensures |sent| == 8 + |buffer| && sent[8..] == buffer
    ensures ParseHeader(sent, 0).msgType == TypesFor(Family(target)).echoRequest
    ensures ParseHeader(sent, 0).code == 0
    ensures ParseHeader(sent, 0).identifier == EchoId && ParseHeader(sent, 0).sequenceNum == 0
    ensures InternetChecksum.Checksum(sent) == 0
    ensures net.sendFault ==> reply == FaultReply(target)
    ensures !net.sendFault ==>
              reply == ReplyForAsWritten(target,
                                         ReceiveIcmpReply(Family(target), EchoId,
                                                          Extensions.Filled(ReceiveBufferLength(|buffer|), 0),
                                                          net.arrivals),
                                         net.elapsedMs)
    ensures !net.sendFault && ExpiredAtCheck !in net.arrivals ==>
              reply == ReplyFor(target,
                                ReceiveIcmpReply(Family(target), EchoId,
                                                 Extensions.Filled(ReceiveBufferLength(|buffer|), 0),
                                                 net.arrivals),
                                net.elapsedMs)
  {
    var af := Family(target);
    sent := ToBytes(BuildEchoRequest(af, EchoId, 0, buffer));
    if net.sendFault {
      reply := FaultReply(target);
    } else {
      var recvBuf := Extensions.Filled(ReceiveBufferLength(|buffer|), 0);
      var outcome := ReceiveIcmpReply(af, EchoId, recvBuf, net.arrivals);
      reply := ReplyForAsWritten(target, outcome, net.elapsedMs);
    }
  }
}
