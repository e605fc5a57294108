/** `TraceRoute` (src/NetUtilities/TraceRoute.cs): a retried probe per hop,
    sweeping the TTL upward from 1 until a probe reaches the target or the
    hop budget is spent.

    The host's ping facility is replaced by `probe(ttl)(attempt)`, the reply
    to the `attempt`-th send with that TTL (to the resolved target, with a
    32-byte zero payload, don't-fragment set and the configured timeout).
    The stopwatch is `stopwatch(hop)`, the milliseconds hop `hop` took, and
    the reverse resolver is `resolve`, which yields the empty string when a
    lookup fails. */
module TraceRoute {
  import opened NetTypes

  /** The two fields of the host facility's reply the traceroute reads. */
  datatype OsReply = OsReply(status: IPStatus, address: IPAddress)

  /** One line of the route; `hostName` is `None` where the field stays null. */
  datatype HopInfo = HopInfo(status: IPStatus, rtt: int, address: IPAddress, hostName: Option<string>)

  datatype Options = Options(maxHops: int32, pingTimeout: int32, retryTimes: int32, resolveHost: bool)

  const DefaultOpts: Options := Options(30, 4000, 3, true)

  /** A line handed to the caller's logger, before its text formatting: the
      header naming the target and `MaxHops`, or the record of hop `hop`. */
  datatype LogLine = Header(target: IPAddress, maxHops: int32) | HopLine(hop: nat, info: HopInfo)

  // ---------------------------------------------------------------------
  // Retry policy
  // ---------------------------------------------------------------------

  /** The number of sends `retryTimes` allows: one, plus one per retry. */
  function Budget(retryTimes: int): (n: nat)
    ensures n >= 1
    ensures retryTimes >= 0 ==> n == retryTimes + 1
    ensures retryTimes <= 0 ==> n == 1
  {
    if retryTimes <= 0 then 1 else retryTimes + 1
  }

  /** A settled probe: the reply kept and how many sends it took. */
  datatype Settled = Settled(reply: OsReply, sends: nat)

  /** Sending from attempt `k` on: stop at the first reply that is not a
      timeout, or when the budget is spent. */
  function RetryFrom(send: nat -> OsReply, budget: nat, k: nat): (s: Settled)
    requires k < budget
    ensures k < s.sends <= budget
    ensures s.reply == send(s.sends - 1)
    ensures forall j :: k <= j < s.sends - 1 ==> send(j).status == TimedOut
    ensures s.sends == budget || s.reply.status != TimedOut
    decreases budget - k
  {
    if send(k).status != TimedOut || k + 1 == budget then Settled(send(k), k + 1)
    else RetryFrom(send, budget, k + 1)
  }

  /** The retry policy: only a `TimedOut` reply is retried, at most
      `Budget(retryTimes)` sends happen, and the reply kept is the last one
      obtained, unmerged. */
  function Retry(send: nat -> OsReply, retryTimes: int): (s: Settled)
    ensures 1 <= s.sends <= Budget(retryTimes)
    ensures s.reply == send(s.sends - 1)
    ensures forall j :: 0 <= j < s.sends - 1 ==> send(j).status == TimedOut
    ensures s.sends == Budget(retryTimes) || s.reply.status != TimedOut
  {
    RetryFrom(send, Budget(retryTimes), 0)
  }

  /** The four properties of `Retry` pin its result down. */
  lemma RetryUnique(send: nat -> OsReply, retryTimes: int, reply: OsReply, sends: nat)
    requires 1 <= sends <= Budget(retryTimes)
    requires reply == send(sends - 1)
    requires forall j :: 0 <= j < sends - 1 ==> send(j).status == TimedOut
    requires sends == Budget(retryTimes) || reply.status != TimedOut
    ensures Settled(reply, sends) == Retry(send, retryTimes)
  {
  }

  /** `TraceRoute.Ping`: send once, then send again while the retry counter
      is still below `retryTimes` and the last reply timed out, counting each
      retry; also reports how many sends happened. */
  method Ping(send: nat -> OsReply, retryTimes: int32) returns (reply: OsReply, sends: nat)
    ensures Settled(reply, sends) == Retry(send, retryTimes)
  {
    var times := 0;
    reply := send(0);
    sends := 1;
    // The increment of `times` after a failing comparison is never read.
    while times < retryTimes && reply.status == TimedOut
      invariant sends == times + 1 && sends <= Budget(retryTimes)
      invariant reply == send(sends - 1)
      invariant forall j :: 0 <= j < sends - 1 ==> send(j).status == TimedOut
      decreases retryTimes - times
    {
      times := times + 1;
      reply := send(sends);
      sends := sends + 1;
    }
    RetryUnique(send, retryTimes, reply, sends);
  }

  /** With `N >= 0` retries and a facility that always times out, exactly
      `N + 1` sends happen and the result is a timeout. */
  lemma AlwaysTimedOutSendsAll(send: nat -> OsReply, retryTimes: int)
    requires retryTimes >= 0
    requires forall k :: send(k).status == TimedOut
    ensures Retry(send, retryTimes).sends == retryTimes + 1
    ensures Retry(send, retryTimes).reply.status == TimedOut
  {
  }

  /** With no retries allowed, exactly one send happens, and its reply is kept. */
  lemma NoRetryWithoutBudget(send: nat -> OsReply, retryTimes: int)
    requires retryTimes <= 0
    ensures Retry(send, retryTimes) == Settled(send(0), 1)
  {
  }

  // ---------------------------------------------------------------------
  // Hop records
  // ---------------------------------------------------------------------

  /** The record built from a settled reply: status and address copied, the
      host name looked up only when resolution is on and the hop did not
      time out. */
  function MakeHop(opts: Options, reply: OsReply, rtt: int, resolve: IPAddress -> string): (h: HopInfo)
    ensures h.status == reply.status && h.address == reply.address && h.rtt == rtt
    ensures h.hostName.Some? <==> opts.resolveHost && reply.status != TimedOut
    ensures h.hostName.Some? ==> h.hostName.value == resolve(reply.address)
  {
    var hop := HopInfo(reply.status, rtt, reply.address, None);
    if opts.resolveHost && reply.status != TimedOut then hop.(hostName := Some(resolve(reply.address)))
    else hop
  }

  /** The record of hop `ttl`: its probes are sent with TTL `ttl`. */
  function HopAt(
    opts: Options, probe: int -> nat -> OsReply, stopwatch: int -> int,
    resolve: IPAddress -> string, ttl: int): HopInfo
  {
    MakeHop(opts, Retry(probe(ttl), opts.retryTimes).reply, stopwatch(ttl), resolve)
  }

  // ---------------------------------------------------------------------
  // The sweep
  // ---------------------------------------------------------------------

  /** The number of hops a sweep meant to stop after `maxHops` may probe:
      `maxHops`, none when it is not positive. */
  function HopLimit(maxHops: int): (n: nat)
    ensures maxHops <= 0 ==> n == 0
    ensures maxHops >= 0 ==> n == maxHops
  {
    if maxHops <= 0 then 0 else maxHops
  }

  /** The number of hops the loop test `i < MaxHops + 1` lets through when
      `MaxHops + 1` is evaluated in unchecked 32-bit arithmetic, as the
      source does: the last counter value the test admits, starting from 1.
      That is `HopLimit(maxHops)` below `int.MaxValue`, and none at
      `int.MaxValue`, where the sum wraps to `int.MinValue`. */
  function HopLimitAsWritten(maxHops: int32): (n: nat)
    ensures maxHops < Int32Max ==> n == HopLimit(maxHops)
    ensures maxHops == Int32Max ==> n == 0
    ensures n == 0 || n < Wrap32(maxHops as int + 1)
    ensures n + 1 >= Wrap32(maxHops as int + 1)
  {
    var bound := Wrap32(maxHops as int + 1);
    if bound <= 1 then 0 else bound - 1
  }

  /** The records of hops `ttl`, `ttl + 1`, ... up to hop `limit`: stop
      after the first `Success` or after hop `limit`. */
  function TraceFrom(
    opts: Options, probe: int -> nat -> OsReply, stopwatch: int -> int,
    resolve: IPAddress -> string, limit: nat, ttl: nat): (hops: seq<HopInfo>)
    requires 1 <= ttl <= limit + 1
    ensures |hops| <= limit + 1 - ttl
    decreases limit + 1 - ttl
  {
    if ttl == limit + 1 then []
    else
      var hop := HopAt(opts, probe, stopwatch, resolve, ttl);
      if hop.status == IPStatus.Success then [hop]
      else [hop] + TraceFrom(opts, probe, stopwatch, resolve, limit, ttl + 1)
  }

  /** The whole route as the source sweeps it, from hop 1 under the loop
      bound as written. */
  function Trace(
    opts: Options, probe: int -> nat -> OsReply, stopwatch: int -> int,
    resolve: IPAddress -> string): (hops: seq<HopInfo>)
    ensures |hops| <= HopLimitAsWritten(opts.maxHops)
  {
    TraceFrom(opts, probe, stopwatch, resolve, HopLimitAsWritten(opts.maxHops), 1)
  }

  /** The whole route as evidently intended: from hop 1 up to `MaxHops`,
      whatever its value. */
  function TraceIntended(
    opts: Options, probe: int -> nat -> OsReply, stopwatch: int -> int,
    resolve: IPAddress -> string): (hops: seq<HopInfo>)
    ensures |hops| <= HopLimit(opts.maxHops)
  {
    TraceFrom(opts, probe, stopwatch, resolve, HopLimit(opts.maxHops), 1)
  }

  /** From hop `ttl` on, the `k`-th record is hop `ttl + k`. */
  lemma {:induction false} TraceFromHops(
    opts: Options, probe: int -> nat -> OsReply, stopwatch: int -> int,
    resolve: IPAddress -> string, limit: nat, ttl: nat)
    requires 1 <= ttl <= limit + 1
    ensures forall k :: 0 <= k < |TraceFrom(opts, probe, stopwatch, resolve, limit, ttl)| ==>
              TraceFrom(opts, probe, stopwatch, resolve, limit, ttl)[k] == HopAt(opts, probe, stopwatch, resolve, ttl + k)
    decreases limit + 1 - ttl
  {
    if ttl <= limit {
      var hop := HopAt(opts, probe, stopwatch, resolve, ttl);
      if hop.status != IPStatus.Success {
        TraceFromHops(opts, probe, stopwatch, resolve, limit, ttl + 1);
        var rest := TraceFrom(opts, probe, stopwatch, resolve, limit, ttl + 1);
        var hops := TraceFrom(opts, probe, stopwatch, resolve, limit, ttl);
        assert hops == [hop] + rest;
        forall k | 1 <= k < |hops|
          ensures hops[k] == HopAt(opts, probe, stopwatch, resolve, ttl + k)
        {
          assert hops[k] == rest[k - 1];
        }
      }
    }
  }

  /** From hop `ttl` on, every record but the last is not a `Success`, and
      the sweep ends at the first `Success` or at hop `limit`. */
  lemma {:induction false} TraceFromStops(
    opts: Options, probe: int -> nat -> OsReply, stopwatch: int -> int,
    resolve: IPAddress -> string, limit: nat, ttl: nat)
    requires 1 <= ttl <= limit + 1
    ensures var hops := TraceFrom(opts, probe, stopwatch, resolve, limit, ttl);
            && (forall k :: 0 <= k < |hops| - 1 ==> hops[k].status != IPStatus.Success)
            && (|hops| == limit + 1 - ttl || (|hops| > 0 && hops[|hops| - 1].status == IPStatus.Success))
    decreases limit + 1 - ttl
  {
    if ttl <= limit {
      var hop := HopAt(opts, probe, stopwatch, resolve, ttl);
      if hop.status != IPStatus.Success {
        TraceFromStops(opts, probe, stopwatch, resolve, limit, ttl + 1);
        var rest := TraceFrom(opts, probe, stopwatch, resolve, limit, ttl + 1);
        var hops := TraceFrom(opts, probe, stopwatch, resolve, limit, ttl);
        assert hops == [hop] + rest;
        forall k | 1 <= k < |hops| - 1
          ensures hops[k].status != IPStatus.Success
        {
          assert hops[k] == rest[k - 1];
        }
        if |rest| > 0 {
          assert hops[|hops| - 1] == rest[|rest| - 1];
        }
      }
    }
  }

  /** The whole route: the `k`-th record (from 0) is hop `k + 1`, probed
      with TTL `k + 1`; every record but the last is not a `Success`; the
      sweep ends at the first `Success` or after exactly
      `HopLimitAsWritten(MaxHops)` records. */
  lemma TraceShape(
    opts: Options, probe: int -> nat -> OsReply, stopwatch: int -> int,
    resolve: IPAddress -> string)
    ensures var hops := Trace(opts, probe, stopwatch, resolve);
            && (forall k :: 0 <= k < |hops| ==> hops[k] == HopAt(opts, probe, stopwatch, resolve, k + 1))
            && (forall k :: 0 <= k < |hops| - 1 ==> hops[k].status != IPStatus.Success)
            && (|hops| == HopLimitAsWritten(opts.maxHops) || (|hops| > 0 && hops[|hops| - 1].status == IPStatus.Success))
  {
    TraceFromHops(opts, probe, stopwatch, resolve, HopLimitAsWritten(opts.maxHops), 1);
    TraceFromStops(opts, probe, stopwatch, resolve, HopLimitAsWritten(opts.maxHops), 1);
  }

  /** One step of the sweep seen from the records already collected: hop
      `ttl` is appended, and the sweep goes on past it only when it is not a
      `Success`. */
  lemma TraceStep(
    opts: Options, probe: int -> nat -> OsReply, stopwatch: int -> int,
    resolve: IPAddress -> string, limit: nat, ttl: nat, hops: seq<HopInfo>, route: seq<HopInfo>)
    requires 1 <= ttl <= limit
    requires route == hops + TraceFrom(opts, probe, stopwatch, resolve, limit, ttl)
    ensures var hop := HopAt(opts, probe, stopwatch, resolve, ttl);
            route == if hop.status == IPStatus.Success then hops + [hop]
                     else (hops + [hop]) + TraceFrom(opts, probe, stopwatch, resolve, limit, ttl + 1)
  {
    var hop := HopAt(opts, probe, stopwatch, resolve, ttl);
    if hop.status != IPStatus.Success {
      assert hops + ([hop] + TraceFrom(opts, probe, stopwatch, resolve, limit, ttl + 1))
             == (hops + [hop]) + TraceFrom(opts, probe, stopwatch, resolve, limit, ttl + 1);
    }
  }

  /** `TraceRoute.Run` once the target is resolved: the loop keeps the hop
      counter and the probe TTL in step, tests the counter against
      `MaxHops + 1` wrapped to 32 bits, appends one record per hop and
      breaks on `Success`. Also returns the lines handed to the logger: the
      header first, then each hop's record numbered from 1, in hop order. */
  method Run(
    target: IPAddress, opts: Options, probe: int -> nat -> OsReply, stopwatch: int -> int,
    resolve: IPAddress -> string) returns (hops: seq<HopInfo>, log: seq<LogLine>)
    ensures hops == Trace(opts, probe, stopwatch, resolve)
    ensures |log| == |hops| + 1
    ensures log[0] == Header(target, opts.maxHops)
    ensures forall k :: 0 <= k < |hops| ==> log[k + 1] == HopLine(k + 1, hops[k])
  {
    ghost var limit := HopLimitAsWritten(opts.maxHops);
    hops := [];
    log := [Header(target, opts.maxHops)];
    var ttl := 1;                              // the first probe goes out with TTL 1
    var i := 1;
    while i < Wrap32(opts.maxHops as int + 1)
      invariant 1 <= i <= limit + 1
      invariant ttl == i
      invariant Trace(opts, probe, stopwatch, resolve) == hops + TraceFrom(opts, probe, stopwatch, resolve, limit, i)
      invariant |hops| == i - 1 && |log| == i
      invariant log[0] == Header(target, opts.maxHops)
      invariant forall k :: 0 <= k < |hops| ==> log[k + 1] == HopLine(k + 1, hops[k])
      decreases limit + 1 - i
    {
      var reply, _ := Ping(probe(ttl), opts.retryTimes);
      var hop := MakeHop(opts, reply, stopwatch(i), resolve);
      TraceStep(opts, probe, stopwatch, resolve, limit, i, hops, Trace(opts, probe, stopwatch, resolve));
      hops := hops + [hop];
      log := log + [HopLine(i, hop)];
      if reply.status == IPStatus.Success {
        break;
      }
      ttl := ttl + 1;
      i := i + 1;
    }
  }

  /** From hop `ttl` on, a target first reached at hop `h` yields the
      records of hops `ttl` to `h`, the last of them the `Success`. */
  lemma {:induction false} ReachedFrom(
    opts: Options, probe: int -> nat -> OsReply, stopwatch: int -> int,
    resolve: IPAddress -> string, limit: nat, ttl: nat, h: nat)
    requires 1 <= ttl <= h <= limit
    requires forall t :: ttl <= t < h ==> HopAt(opts, probe, stopwatch, resolve, t).status != IPStatus.Success
    requires HopAt(opts, probe, stopwatch, resolve, h).status == IPStatus.Success
    ensures |TraceFrom(opts, probe, stopwatch, resolve, limit, ttl)| == h + 1 - ttl
    ensures TraceFrom(opts, probe, stopwatch, resolve, limit, ttl)[h - ttl].status == IPStatus.Success
    decreases h - ttl
  {
    if ttl < h {
      ReachedFrom(opts, probe, stopwatch, resolve, limit, ttl + 1, h);
      var hop := HopAt(opts, probe, stopwatch, resolve, ttl);
      var rest := TraceFrom(opts, probe, stopwatch, resolve, limit, ttl + 1);
      assert TraceFrom(opts, probe, stopwatch, resolve, limit, ttl) == [hop] + rest;
      assert ([hop] + rest)[h - ttl] == rest[h - (ttl + 1)];
    }
  }

  /** A target first reached at hop `h` within the budget yields exactly
      `h` records, the last of them the `Success`. */
  lemma ReachedAtHop(
    opts: Options, probe: int -> nat -> OsReply, stopwatch: int -> int,
    resolve: IPAddress -> string, h: nat)
    requires 1 <= h <= HopLimitAsWritten(opts.maxHops)
    requires forall t :: 1 <= t < h ==> Retry(probe(t), opts.retryTimes).reply.status != IPStatus.Success
    requires Retry(probe(h), opts.retryTimes).reply.status == IPStatus.Success
    ensures |Trace(opts, probe, stopwatch, resolve)| == h
    ensures Trace(opts, probe, stopwatch, resolve)[h - 1].status == IPStatus.Success
  {
    ReachedFrom(opts, probe, stopwatch, resolve, HopLimitAsWritten(opts.maxHops), 1, h);
  }

  /** From hop `ttl` on, a target never reached yields a record for every
      remaining hop up to `limit`. */
  lemma {:induction false} NeverReachedFrom(
    opts: Options, probe: int -> nat -> OsReply, stopwatch: int -> int,
    resolve: IPAddress -> string, limit: nat, ttl: nat)
    requires 1 <= ttl <= limit + 1
    requires forall t :: ttl <= t <= limit ==> HopAt(opts, probe, stopwatch, resolve, t).status != IPStatus.Success
    ensures |TraceFrom(opts, probe, stopwatch, resolve, limit, ttl)| == limit + 1 - ttl
    decreases limit + 1 - ttl
  {
    if ttl <= limit {
      NeverReachedFrom(opts, probe, stopwatch, resolve, limit, ttl + 1);
    }
  }

  /** A target never reached yields exactly `HopLimitAsWritten(maxHops)`
      records. */
  lemma NeverReachedExhaustsBudget(
    opts: Options, probe: int -> nat -> OsReply, stopwatch: int -> int,
    resolve: IPAddress -> string)
    requires forall t :: Retry(probe(t), opts.retryTimes).reply.status != IPStatus.Success
    ensures |Trace(opts, probe, stopwatch, resolve)| == HopLimitAsWritten(opts.maxHops)
  {
    NeverReachedFrom(opts, probe, stopwatch, resolve, HopLimitAsWritten(opts.maxHops), 1);
  }

  // ---------------------------------------------------------------------
  // The loop bound as written against the intended one
  // ---------------------------------------------------------------------

  /** Below `int.MaxValue` the route as written is the intended one. */
  lemma TraceAgreesBelowMax(
    opts: Options, probe: int -> nat -> OsReply, stopwatch: int -> int,
    resolve: IPAddress -> string)
    requires opts.maxHops < Int32Max
    ensures Trace(opts, probe, stopwatch, resolve) == TraceIntended(opts, probe, stopwatch, resolve)
  {
  }

  /** With the intended bound, a target never reached yields exactly
      `MaxHops` records for every non-negative `MaxHops`. */
  lemma IntendedNeverReachedProbesMaxHops(
    opts: Options, probe: int -> nat -> OsReply, stopwatch: int -> int,
    resolve: IPAddress -> string)
    requires opts.maxHops >= 0
    requires forall t :: Retry(probe(t), opts.retryTimes).reply.status != IPStatus.Success
    ensures |TraceIntended(opts, probe, stopwatch, resolve)| == opts.maxHops
  {
    NeverReachedFrom(opts, probe, stopwatch, resolve, HopLimit(opts.maxHops), 1);
  }

  /** At `MaxHops = int.MaxValue` the source's sweep probes no hop at all,
      while the intended one, for a target never reached, records
      `int.MaxValue` hops. */
  lemma MaxHopsOverflowSkipsSweep(
    opts: Options, probe: int -> nat -> OsReply, stopwatch: int -> int,
    resolve: IPAddress -> string)
    requires opts.maxHops == Int32Max
    requires forall t :: Retry(probe(t), opts.retryTimes).reply.status != IPStatus.Success
    ensures Trace(opts, probe, stopwatch, resolve) == []
    ensures |TraceIntended(opts, probe, stopwatch, resolve)| == Int32Max
  {
    IntendedNeverReachedProbesMaxHops(opts, probe, stopwatch, resolve);
  }
}
