# NetUtilities probe engine in Dafny

This project models the wire-level core of the NetUtilities ping and traceroute toolkit and proves properties of the model. The core has three parts.

- **ICMP echo codec and IP-header decoder** (`SocketPing.IcmpPacket`, `SocketPing.IPHeader`):
  - the per-family ICMP type tables (RFC 792; section 2.1 of RFC 4443);
  - the echo request, with big-endian 16-bit fields;
  - the internet checksum, proved equal to the definition in section 1 of RFC 1071;
  - the 8-byte header parser;
  - the IPv4 header decoder (section 3.1 of RFC 791) and the fixed 40-byte IPv6 header decoder (section 3 of RFC 8200).
- **Reply filtering and classification** (`SocketPing.ReceiveIcmpReplyAsync`, `SocketPing.RunAsync`):
  - the accept/skip test;
  - the receive loop, as a function over the sequence of events the socket delivers;
  - the mapping from what was received (or the cancellation, or the fault) to a `PingReply`.
- **Traceroute** (`TraceRoute.Ping`, `TraceRoute.Run`): the retry that fires only on `TimedOut`, and the TTL sweep that stops at the first `Success` or when the hop budget runs out. `Extensions.Fill` is modelled as well.

Modules:

| file | module | contents |
|---|---|---|
| `net_types.dfy` | `NetTypes` | bytes, `int16`/`int32` patterns, addresses, `PingStatus`/`IPStatus`, `PingReply` |
| `extensions.dfy` | `Extensions` | `Fill` |
| `checksum.dfy` | `InternetChecksum` | the RFC 1071 reference, `CalcChecksum`, the receiver check |
| `icmp_codec.dfy` | `IcmpCodec` | type tables, `BuildEchoRequest`, 16-bit fields, `ParseHeader`, `ToBytes` |
| `ip_header.dfy` | `IpHeaderDecoder` | `IPHeader.Parse`, `ParseIP` |
| `socket_ping.dfy` | `SocketPing` | filter, receive loop, classification, `RunAsync` |
| `trace_route.dfy` | `TraceRoute` | retry policy, `Ping`, hop records, sweep, `Run` |

How the environment is represented:

- **The socket.** `RunAsync` receives a `Network` value. It says whether configuring or sending throws, and it gives the list of `Arrival` events the receive loop observes:
  - a datagram;
  - the timer firing during a receive;
  - any other receive exception;
  - the loop test finding the timer already fired.
  
  When the list is exhausted, the timer fires while a receive waits. A datagram overwrites the start of the reused receive buffer, truncated to the buffer's length, and the IP header is decoded from the whole buffer, as the source does.
- **The host's ping facility.** In the traceroute it is `probe(ttl)(attempt)`. The stopwatch is `stopwatch(hop)`, and the reverse resolver is `resolve`.

Behaviour of the source worth noting:

- **Identifier filtering.** Only echo replies are filtered by identifier. Time-exceeded, destination-unreachable and other messages are accepted whatever their identifier field holds (`SocketPing.Accepts`).
- **IPv6 header.** For IPv6 the received data is assumed to start with a 40-byte header (`IpHeaderDecoder.Parse`).
- **Failed reverse lookups.** A failed lookup yields the empty string, not an absent name. `NsLookup.GetHostName` returns `string.Empty`, so the hop's `HostName` is set to `""`.
- **Cancellation in the traceroute.** The static `TraceRoute.Run` has no cancellation points.

## Model

| member | source | states |
|---|---|---|
| Extensions.Fill | src/NetUtilities/Extensions.cs:11-19 | every element of the array holds `value`; the same array is returned; filling an array that already holds `value` everywhere changes nothing |
| InternetChecksum.CalcChecksum | src/NetUtilities/SocketPing.cs:140-155 | the two folding passes and the final fold yield an `Int16` whose 16-bit pattern is the complement of the one's-complement sum of the big-endian words, an odd last byte taken as a high byte (section 1 of RFC 1071) |
| InternetChecksum.FoldStep | src/NetUtilities/SocketPing.cs:144-145 | one addition followed by `(sum & 0xFFFF) + (sum >> 16)` agrees with end-around-carry addition and keeps the running sum at or below 0xFFFF |
| InternetChecksum.OnesSumIsFold | src/NetUtilities/SocketPing.cs:141-153 | adding words with end-around carry in any grouping gives the same value as folding their plain sum, 0 only for an all-zero sum |
| InternetChecksum.SplitAll | src/NetUtilities/SocketPing.cs:142-151 | the high-byte pass over even indices and the low-byte pass over odd indices together account for every word of the data, odd lengths included |
| InternetChecksum.ChecksumOfCompletedPacket | src/NetUtilities/SocketPing.cs:120-129 | the checksum of a packet with bytes 2-3 zero, written big-endian into those bytes, makes the checksum of the completed packet 0 |
| IcmpCodec.TypesFor | src/NetUtilities/SocketPing.cs:53-84 | the IPv4 table has echo request 8 and echo reply 0, the IPv6 table 128 and 129; within a table all four types differ |
| IcmpCodec.BuildEchoRequest | src/NetUtilities/SocketPing.cs:93-103 | type 8 for IPv4 and 128 otherwise, code 0, identifier, sequence number and payload as given |
| IcmpCodec.ReadInt16 | src/NetUtilities/SocketPing.cs:112-114 | the big-endian bytes of the value read are exactly the two bytes it was read from |
| IcmpCodec.WriteInt16 | src/NetUtilities/SocketPing.cs:134-138 | the value's high byte then low byte land at `index` and `index + 1`; every other byte is unchanged |
| IcmpCodec.Int16RoundTrip | src/NetUtilities/SocketPing.cs:112-114 | reading back the two bytes `Fill` stores for an `Int16` gives that `Int16`, negative values included |
| IcmpCodec.ParseHeader | src/NetUtilities/SocketPing.cs:105-116 | the header has no payload, type and code are bytes 0 and 1, and re-encoding it gives exactly the eight bytes it was read from |
| IcmpCodec.ParseHeaderRoundTrip | src/NetUtilities/SocketPing.cs:105-116 | parsing an encoded header gives the header back, whatever bytes follow it |
| IcmpCodec.ChecksumCompletes | src/NetUtilities/SocketPing.cs:129 | storing the checksum of a packet whose checksum field is zero makes the receiver's recomputation 0; the field reads back as the stored value |
| IcmpCodec.ToBytes | src/NetUtilities/SocketPing.cs:118-132 | `8 + Payload.Length` bytes: type at 0, code at 1, identifier and sequence number parse back, payload copied from byte 8; the checksum field is the checksum of the packet with that field zeroed, and the finished packet checksums to 0 |
| IpHeaderDecoder.ParseIP | src/NetUtilities/SocketPing.cs:43-48 | the address is a copy of the `length` bytes at `index` |
| IpHeaderDecoder.Parse | src/NetUtilities/SocketPing.cs:19-41 | IPv4: size `(b[0] & 0x0F) * 4`, a multiple of 4 in 0..60, TTL `b[8]`, source `b[12..16]`, destination `b[16..20]`; any other family: size 40, hop limit `b[7]`, source `b[8..24]`, destination `b[24..40]` |
| IpHeaderDecoder.ParseRecoversV4 | src/NetUtilities/SocketPing.cs:21-29 | decoding an IPv4 header built from a header length, TTL and two addresses recovers all four |
| IpHeaderDecoder.ParseRecoversV6 | src/NetUtilities/SocketPing.cs:31-40 | decoding an IPv6 header built from a hop limit and two addresses recovers all three |
| SocketPing.Accepts | src/NetUtilities/SocketPing.cs:260-271 | an accepted message never has the family's echo-request type; an accepted echo reply carries the probe's identifier; every other type is accepted whatever its identifier |
| SocketPing.Overwrite | src/NetUtilities/SocketPing.cs:251 | the reused buffer keeps its length, starts with the received datagram truncated to the buffer, and keeps its old contents after that |
| SocketPing.Screen | src/NetUtilities/SocketPing.cs:251-274 | a datagram is skipped exactly when both headers can be read from the buffer it was received into and the filter refuses the ICMP header, truncated datagrams included; it is taken as a fault exactly when a header read runs past the buffer, and otherwise as a match with the received byte count and the headers decoded from that buffer; a skipped one leaves exactly that buffer |
| SocketPing.ReceiveIcmpReply | src/NetUtilities/SocketPing.cs:246-278 | a matched message passes the filter and fits the buffer; the `return default` exit happens only when the loop test found the timer fired |
| SocketPing.SkippedPrefixIsDiscarded | src/NetUtilities/SocketPing.cs:249-271 | after a run of skipped datagrams the loop continues exactly as if it had started there with the buffer they left |
| SocketPing.FirstUnskippedEventDecides | src/NetUtilities/SocketPing.cs:248-277 | after a run of skipped datagrams the next event decides the outcome: the timer firing during a receive, or the events running out, gives `Canceled`; any other receive exception gives `Faulted`; the loop test finding the timer fired gives the `return default` exit |
| SocketPing.TakenIsMatched | src/NetUtilities/SocketPing.cs:249-274 | conversely, a datagram taken after a run of skipped ones is what the loop returns |
| SocketPing.MatchedIsFirstAccepted | src/NetUtilities/SocketPing.cs:249-274 | a matched message is the first one accepted: every event before it is a skipped datagram, and it is taken from the buffer those datagrams left |
| SocketPing.ScreenTakesDatagram | src/NetUtilities/SocketPing.cs:250-274 | a complete datagram that fits the buffer and is not foreign is taken with its own length and the IP and ICMP headers of its own bytes, so the reported sender and TTL are the received ones |
| SocketPing.ScreenReadsDatagramOnly | src/NetUtilities/SocketPing.cs:255-258 | a complete datagram that fits the buffer decodes the same as on its own bytes, so it is skipped exactly when its own headers are refused |
| SocketPing.ForeignTrafficTimesOut | src/NetUtilities/SocketPing.cs:249-271 | echo requests and echo replies with another identifier never end the wait; with nothing else arriving the receive times out |
| SocketPing.ReplyFromHeaders | src/NetUtilities/SocketPing.cs:194-225 | echo reply gives (`Success`, `Success`); time exceeded gives (`Fail`, `TtlExpired`); destination unreachable gives (`Fail`, `DestinationUnreachable`); any other type gives (`Fail`, `Unknown`) with an exception naming type and code; size, sender, TTL and time copied |
| SocketPing.ReplyFor | src/NetUtilities/SocketPing.cs:189-237 | `Success` exactly when an echo reply was matched; `TimedOut` exactly when the receive was canceled or the loop exited; (`Exception`, `Unknown`) exactly on a fault, with the transport-fault diagnostic; `Unknown` otherwise exactly for a matched message of another type, with that type and code as the diagnostic; a sender exactly when a message was matched |
| SocketPing.ReplyForAsWritten | src/NetUtilities/SocketPing.cs:189-225 | identical to `ReplyFor` except after `return default`, where the reply has no sender, packet size 0 and TTL 0, and reports `Success` for IPv4 and `Unknown` with an unexpected-type diagnostic otherwise |
| SocketPing.ForeignThenExpiryExitsLoop | src/NetUtilities/SocketPing.cs:249-277 | a skipped datagram followed by the loop test finding the timer fired ends the loop through `return default` |
| SocketPing.ForeignReplyThenExpiryReportsSuccess | src/NetUtilities/SocketPing.cs:200-208 | as written, that exit makes an IPv4 probe report (`Success`, `Success`) with no responder; the corrected builder reports `TimedOut` |
| SocketPing.ForeignEchoReplyExists | src/NetUtilities/SocketPing.cs:267-271 | a 28-byte IPv4 echo reply with identifier 0x1a2c is such a foreign datagram |
| SocketPing.RunAsync | src/NetUtilities/SocketPing.cs:166-244 | the bytes sent are the echo request with identifier 0x1a2b and sequence 0, the payload after the header and a checksum that verifies; a send fault gives the exception reply; otherwise the reply classifies the receive outcome over a zeroed buffer of `48 + payload + 28` bytes, classified as the source does, so a loop that exits through `return default` is read as ICMP type 0: `Success` with no sender for IPv4, `Unknown` otherwise; every other outcome gets the intended classification `ReplyFor` |
| TraceRoute.RetryFrom | src/NetUtilities/TraceRoute.cs:91-94 | sending from attempt `k`: every reply before the kept one timed out, and the kept one is the last obtained |
| TraceRoute.Retry | src/NetUtilities/TraceRoute.cs:86-97 | at most `max(retryTimes, 0) + 1` sends; every reply before the kept one timed out; the kept reply is the last one obtained, unmerged; sending stops early only on a reply that is not a timeout |
| TraceRoute.Ping | src/NetUtilities/TraceRoute.cs:86-97 | the do-while loop returns the reply and number of sends the retry policy determines |
| TraceRoute.AlwaysTimedOutSendsAll | src/NetUtilities/TraceRoute.cs:89-94 | with `retryTimes = N >= 0` and a facility that always times out, exactly `N + 1` sends happen and the result is `TimedOut` |
| TraceRoute.NoRetryWithoutBudget | src/NetUtilities/TraceRoute.cs:89-94 | with `retryTimes <= 0` exactly one send happens and its reply is kept |
| TraceRoute.MakeHop | src/NetUtilities/TraceRoute.cs:62-69 | status and address copied from the settled reply; the host name is looked up exactly when resolution is on and the status is not `TimedOut` |
| TraceRoute.HopLimit | src/NetUtilities/TraceRoute.cs:56 | the intended bound: the sweep may probe `MaxHops` hops, none when `MaxHops <= 0` |
| TraceRoute.HopLimitAsWritten | src/NetUtilities/TraceRoute.cs:56 | the last hop the test `i < MaxHops + 1` admits in 32-bit arithmetic: `HopLimit(MaxHops)` below `int.MaxValue`, none at `int.MaxValue` |
| TraceRoute.Trace | src/NetUtilities/TraceRoute.cs:56-79 | the route as swept under the bound as written has at most `HopLimitAsWritten(MaxHops)` records, so none when `MaxHops <= 0` or `MaxHops = int.MaxValue` |
| TraceRoute.TraceIntended | src/NetUtilities/TraceRoute.cs:56-79 | the route under the intended bound has at most `MaxHops` records |
| TraceRoute.TraceFromHops | src/NetUtilities/TraceRoute.cs:52-78 | from hop `ttl` on, the `k`-th record is hop `ttl + k`, probed with TTL `ttl + k` |
| TraceRoute.TraceFromStops | src/NetUtilities/TraceRoute.cs:70-76 | from hop `ttl` on, every record but the last is not a `Success`, and the sweep ends at the first `Success` or at the last hop of the budget |
| TraceRoute.TraceShape | src/NetUtilities/TraceRoute.cs:52-79 | the `k`-th record is hop `k + 1`, one record per hop in hop order; every record before the last is not a `Success`; the route ends at the first `Success` or after exactly `HopLimitAsWritten(MaxHops)` records |
| TraceRoute.Run | src/NetUtilities/TraceRoute.cs:40-84 | the loop, which keeps the hop counter and the probe TTL in step and tests the counter against `MaxHops + 1` wrapped to 32 bits, returns exactly the route `Trace` describes; the logger receives the header, then one line per record with its hop number, in hop order |
| TraceRoute.ReachedFrom | src/NetUtilities/TraceRoute.cs:73-76 | from hop `ttl`, a target first reached at hop `h` yields the records of hops `ttl` to `h`, the last one a `Success` |
| TraceRoute.ReachedAtHop | src/NetUtilities/TraceRoute.cs:56-79 | a target first reached at hop `h` within the budget yields exactly `h` records, the last one the `Success` |
| TraceRoute.NeverReachedFrom | src/NetUtilities/TraceRoute.cs:56-79 | from hop `ttl`, a target never reached yields a record for every remaining hop of the budget |
| TraceRoute.NeverReachedExhaustsBudget | src/NetUtilities/TraceRoute.cs:56-79 | a target never reached yields exactly `HopLimitAsWritten(MaxHops)` records |
| TraceRoute.TraceAgreesBelowMax | src/NetUtilities/TraceRoute.cs:56 | below `MaxHops = int.MaxValue` the route as written is the intended route |
| TraceRoute.IntendedNeverReachedProbesMaxHops | src/NetUtilities/TraceRoute.cs:56-79 | under the intended bound a target never reached yields exactly `MaxHops` records for every `MaxHops >= 0` |
| TraceRoute.MaxHopsOverflowSkipsSweep | src/NetUtilities/TraceRoute.cs:56 | at `MaxHops = int.MaxValue` the source's route is empty, while the intended route for a target never reached has `int.MaxValue` records |

## Left out

- Socket construction, socket options, `SendToAsync`, `ReceiveFromAnyAsync` and `Close`: I/O. The socket is the `Network` value, and the `ttl`, `fragment` and `timeout` arguments of `RunAsync` configure it.
- `CancellationTokenSource` and `Extensions.Timeout`: concurrency. The timer appears only as the `ExpiredWhileWaiting` and `ExpiredAtCheck` events.
- `DateTime.Now` and `Stopwatch`: clocks. Elapsed times are the integer `elapsedMs` and `stopwatch(hop)` inputs.
- `Dns.GetHostEntry` and `NsLookup`: DNS. The traceroute starts from a resolved target, and reverse lookup is the `resolve` function.
- `System.Net.NetworkInformation.Ping`: the host's ping facility, represented by `probe`. Exceptions thrown by `Ping.Send` are not modelled.
- The `Socket` constructor, the `DontFragment` and `ReceiveTimeout` setters and the `CancellationTokenSource` constructor (src/NetUtilities/SocketPing.cs:169-177): an exception any of them throws, such as on a `timeout` below -1, escapes `RunAsync` before the `try`, so it is not modelled.
- On platforms that throw on an oversized datagram rather than truncating it, that throw is not modelled. The model truncates to the buffer.
- `NetworkInfo`, the console demo, the `IcmpPing`/`UDPPing`/`IPingDelegate` wrappers and every `ToString`: outside the probe engine.
- The text of the traceroute's log lines (src/NetUtilities/TraceRoute.cs:54, 71): string formatting. `TraceRoute.Run` returns the lines as `LogLine` values, the header and each numbered record, whether or not a logger is passed; a null logger only discards them.
- The `#if ANDROID` branch of the receive loop: it reads no IP header, and as written it does not compile, since `ipHeader` is used after the `#endif`.
- ICMPv6 pseudo-header checksumming (section 2.3 of RFC 4443): the code checksums the ICMP bytes only, and so does the model.
- IpHeaderDecoder.Parse: requires the bytes it reads to be present. On a shorter buffer the source throws; `SocketPing.Screen` turns that into the `Faulted` outcome before calling it.
- IcmpCodec.ParseHeader: requires the eight bytes at `index` to be present. On a shorter buffer the source throws, and `SocketPing.Screen` models that as `Faulted`.
- TraceRoute.HopInfo: `RTT` is `stopwatch(hop)` as an `int`. The `(int)` truncation of the millisecond count is not modelled.

## Findings

`SocketPing.RunAsync` and `TraceRoute.Run` follow the code as written. The corrected definitions stand beside them, and the intended properties are proved about those.

| source | as written | input that shows it | evidently intended | confidence | as-written member | corrected member |
|---|---|---|---|---|---|---|
| src/NetUtilities/SocketPing.cs:249-277 | when the loop test finds the token cancelled, the receive returns `default`; `RunAsync` then classifies ICMP type 0, which is the IPv4 echo-reply type | an IPv4 target, one datagram that is skipped (an echo reply with identifier 0x1a2c), then the timer fires before the next loop test | the probe reports `TimedOut` with no responder | not executed | SocketPing.ReplyForAsWritten, SocketPing.ForeignReplyThenExpiryReportsSuccess | SocketPing.ReplyFor |
| src/NetUtilities/TraceRoute.cs:56 | the bound `opts.MaxHops + 1` is evaluated in unchecked 32-bit arithmetic | `MaxHops = int.MaxValue` wraps the bound to `int.MinValue`, and the sweep probes no hop | the sweep probes up to `MaxHops` hops | not executed | TraceRoute.HopLimitAsWritten, TraceRoute.Trace, TraceRoute.MaxHopsOverflowSkipsSweep | TraceRoute.HopLimit, TraceRoute.TraceIntended, TraceRoute.IntendedNeverReachedProbesMaxHops |
