/**
 * ICMP echo requests and the route tracer built on them.
 *
 * Time points and durations are integer nanoseconds of the steady clock.
 * An IPv4 address is a 32-bit value in host order (the first octet is the
 * most significant byte); the source keeps it in network order and converts
 * its masks with htonl, which compares the same octets.
 */
module Icmp {

  type Addr = bv32

  /** 0.0.0.0, the address an IpEndPoint holds when nothing answered. */
  const INADDR_ANY: Addr := 0
  /** 127.0.0.1, where the search for the last private node starts. */
  const LOCALHOST: Addr := 0x7F00_0001

  /** Windows IP_STATUS and error codes that the core looks at. */
  const IP_SUCCESS: nat := 0
  const IP_REQ_TIMED_OUT: nat := 11010
  const IP_TTL_EXPIRED_TRANSIT: nat := 11013
  const ERROR_IO_PENDING: nat := 997

  const NS_PER_MS: nat := 1_000_000

  function FirstOctet(a: Addr): bv32 { a >> 24 }
  function SecondOctet(a: Addr): bv32 { (a >> 16) & 0xFF }

  /** The three private blocks of section 3 of RFC 1918, stated on octets. */
  predicate InPrivateBlock(a: Addr) {
    FirstOctet(a) == 10
    || (FirstOctet(a) == 172 && 16 <= SecondOctet(a) <= 31)
    || (FirstOctet(a) == 192 && SecondOctet(a) == 168)
  }

  /** IpEndPoint::isPublicAddress: none of the three masked comparisons matches. */
  predicate IsPublicAddress(a: Addr) {
    !((a & 0xFF00_0000) == 0x0A00_0000) &&
    !((a & 0xFFF0_0000) == 0xAC10_0000) &&
    !((a & 0xFFFF_0000) == 0xC0A8_0000)
  }

  /** The masks select exactly the RFC 1918 blocks; 0.0.0.0 and 127.0.0.1 count as public. */
  lemma PublicIsOutsidePrivateBlocks(a: Addr)
    ensures IsPublicAddress(a) <==> !InPrivateBlock(a)
    ensures IsPublicAddress(INADDR_ANY) && IsPublicAddress(LOCALHOST)
  {
    MaskSelectsBlock10(a);
    MaskSelectsBlock172(a);
    MaskSelectsBlock192(a);
  }

  lemma MaskSelectsBlock10(a: Addr)
    ensures (a & 0xFF00_0000) == 0x0A00_0000 <==> FirstOctet(a) == 10
  {
  }

  lemma MaskSelectsBlock172(a: Addr)
    ensures (a & 0xFFF0_0000) == 0xAC10_0000 <==> FirstOctet(a) == 172 && 16 <= SecondOctet(a) <= 31
  {
  }

  lemma MaskSelectsBlock192(a: Addr)
    ensures (a & 0xFFFF_0000) == 0xC0A8_0000 <==> FirstOctet(a) == 192 && SecondOctet(a) == 168
  {
  }

  /** The result of one echo request, as IcmpEchoResult holds it. */
  datatype IcmpEchoResult = IcmpEchoResult(
    sentTime: int,
    latency: int,
    errorCode: nat,
    statusCode: nat,
    responder: Addr,
    sysLatency: nat)

  /** The first ICMP_ECHO_REPLY in the reply buffer, and how many IcmpParseReplies found. */
  datatype EchoReply = EchoReply(parsedReplies: nat, status: nat, address: Addr, roundTripTime: nat)

  /** IcmpEchoContext after asyncSendIcmpEcho: the reply buffer, the send time, the timeout and GetLastError. */
  datatype IcmpEchoContext = IcmpEchoContext(reply: EchoReply, sentTime: int, timeoutMs: nat, errorCode: nat)

  /** A reply is taken from the buffer only if it came in before the timeout and the buffer parsed. */
  predicate AnsweredInTime(context: IcmpEchoContext, replyTime: int) {
    replyTime - context.sentTime < context.timeoutMs * NS_PER_MS && context.reply.parsedReplies >= 1
  }

  /** makeIcmpPingResult: fields not taken from the reply stay zero, as in a value-initialised result. */
  function MakeIcmpPingResult(context: IcmpEchoContext, replyTime: int): (r: IcmpEchoResult)
    ensures r.sentTime == context.sentTime && r.latency == replyTime - context.sentTime
    ensures r.errorCode == context.errorCode
    ensures AnsweredInTime(context, replyTime) ==>
      r.statusCode == context.reply.status && r.responder == context.reply.address
      && r.sysLatency == context.reply.roundTripTime
    ensures !AnsweredInTime(context, replyTime) ==>
      r.statusCode == IP_REQ_TIMED_OUT && r.responder == INADDR_ANY && r.sysLatency == 0
  {
    var base := IcmpEchoResult(context.sentTime, replyTime - context.sentTime, context.errorCode, 0, INADDR_ANY, 0);
    if replyTime - context.sentTime < context.timeoutMs * NS_PER_MS && context.reply.parsedReplies >= 1 then
      base.(statusCode := context.reply.status, responder := context.reply.address,
            sysLatency := context.reply.roundTripTime)
    else
      base.(statusCode := IP_REQ_TIMED_OUT)
  }

  /** Only a timely answer can carry a status other than "timed out" or name a responder. */
  lemma ResultWithResponderWasTimely(context: IcmpEchoContext, replyTime: int)
    requires MakeIcmpPingResult(context, replyTime).responder != INADDR_ANY
    ensures MakeIcmpPingResult(context, replyTime).latency < context.timeoutMs * NS_PER_MS
    ensures context.reply.parsedReplies >= 1
  {
  }

  /** Which handle ended WaitForMultipleObjects: the stop event, the reply event, or the timeout. */
  datatype WaitOutcome = StopSignalled | ReplySignalled | WaitTimedOut

  /**
   * sendIcmpEcho. The request's context (its send time and GetLastError) is an
   * input; `now` is the clock read right after sending and `afterWait` the clock
   * read after waiting, which only happens while the request is pending.
   */
  method SendIcmpEcho(result: IcmpEchoResult, context: IcmpEchoContext, now: int,
                      wait: WaitOutcome, afterWait: int)
    returns (sent: bool, result': IcmpEchoResult)
    ensures sent <==> !(context.errorCode == ERROR_IO_PENDING && wait == StopSignalled)
    ensures !sent ==> result' == result
    ensures sent && context.errorCode == ERROR_IO_PENDING ==>
      result' == MakeIcmpPingResult(context.(errorCode := 0), afterWait) && result'.errorCode == 0
    ensures sent && context.errorCode != ERROR_IO_PENDING ==>
      result' == MakeIcmpPingResult(context, now) && result'.errorCode == context.errorCode
  {
    var ctx := context;
    var replyTime := now;
    if ctx.errorCode == ERROR_IO_PENDING {
      ctx := ctx.(errorCode := 0);
      replyTime := afterWait;
      if wait == StopSignalled {
        return false, result;
      }
    }
    sent, result' := true, MakeIcmpPingResult(ctx, replyTime);
  }

  // ---------------------------------------------------------------------------
  // traceRoute

  datatype TraceType = FullTrace | FirstPublic | LastPrivate

  /**
   * What one call of the tracer's sendEcho gives: the stop event was set (before
   * or while waiting), or a result. Call number k of a trace gets `echo(k)`.
   */
  datatype EchoOutcome = Stopped | Replied(result: IcmpEchoResult)

  /** One call of sendEcho: the address, the TTL and the time waited on the stop event first. */
  datatype Probe = Probe(target: Addr, ttl: nat, waitMs: nat)

  const MAX_TTL: nat := 128
  const TRIES_PER_TTL: nat := 3
  const TRACE_WAIT_MS: nat := 250
  const CONFIRM_WAIT_MS: nat := 50

  predicate ExpiredInTransit(r: IcmpEchoResult) {
    r.errorCode == 0 && r.statusCode == IP_TTL_EXPIRED_TRANSIT
  }

  predicate Succeeded(r: IcmpEchoResult) {
    r.errorCode == 0 && r.statusCode == IP_SUCCESS
  }

  /** Call k was an echo to a private hop (not the target) that came back without error. */
  predicate ConfirmsPrivateHop(probes: seq<Probe>, echo: nat -> EchoOutcome, traceTarget: Addr, k: int)
    requires 0 <= k < |probes|
  {
    probes[k].target != traceTarget && !IsPublicAddress(probes[k].target)
    && echo(k).Replied? && Succeeded(echo(k).result)
  }

  /** lastPrivateNode after the first n calls: the last private hop that answered its own echo, else 127.0.0.1. */
  function LastPrivateNode(probes: seq<Probe>, echo: nat -> EchoOutcome, traceTarget: Addr, n: int): Addr
    requires 0 <= n <= |probes|
    decreases n
  {
    if n == 0 then LOCALHOST
    else if ConfirmsPrivateHop(probes, echo, traceTarget, n - 1) then echo(n - 1).result.responder
    else LastPrivateNode(probes, echo, traceTarget, n - 1)
  }

  /** The results the first n calls hand to the result handler: those of answered probes to the target or to a public hop. */
  function PushedResults(probes: seq<Probe>, echo: nat -> EchoOutcome, traceTarget: Addr, n: int): seq<IcmpEchoResult>
    requires 0 <= n <= |probes|
    decreases n
  {
    if n == 0 then []
    else
      PushedResults(probes, echo, traceTarget, n - 1)
      + if (probes[n - 1].target == traceTarget || IsPublicAddress(probes[n - 1].target)) && echo(n - 1).Replied?
        then [echo(n - 1).result] else []
  }

  /** How many calls ended with a result: all of them, or all but a final stopped one. */
  function AnsweredCount(probes: seq<Probe>, echo: nat -> EchoOutcome): (n: nat)
    ensures n <= |probes|
  {
    if probes != [] && echo(|probes| - 1).Stopped? then |probes| - 1 else |probes|
  }

  /** The first n calls decide both the pushed results and the last private node. */
  lemma {:induction false} PrefixDecides(probes: seq<Probe>, probes': seq<Probe>, echo: nat -> EchoOutcome,
                                         traceTarget: Addr, n: nat)
    requires n <= |probes| <= |probes'| && probes'[..|probes|] == probes
    ensures LastPrivateNode(probes', echo, traceTarget, n) == LastPrivateNode(probes, echo, traceTarget, n)
    ensures PushedResults(probes', echo, traceTarget, n) == PushedResults(probes, echo, traceTarget, n)
  {
    if n > 0 {
      assert probes'[n - 1] == probes'[..|probes|][n - 1];
      PrefixDecides(probes, probes', echo, traceTarget, n - 1);
    }
  }

  /**
   * LastPrivateNode is 127.0.0.1 when no private hop was confirmed, and
   * otherwise the hop of the last confirmation.
   */
  lemma {:induction false} LastPrivateNodeIsLastConfirmed(probes: seq<Probe>, echo: nat -> EchoOutcome,
                                                          traceTarget: Addr, n: nat)
    requires n <= |probes|
    ensures var node := LastPrivateNode(probes, echo, traceTarget, n);
      ((forall k | 0 <= k < n :: !ConfirmsPrivateHop(probes, echo, traceTarget, k)) && node == LOCALHOST)
      || exists k | 0 <= k < n ::
           ConfirmsPrivateHop(probes, echo, traceTarget, k) && echo(k).result.responder == node
           && forall k' | k < k' < n :: !ConfirmsPrivateHop(probes, echo, traceTarget, k')
  {
    if n > 0 && !ConfirmsPrivateHop(probes, echo, traceTarget, n - 1) {
      LastPrivateNodeIsLastConfirmed(probes, echo, traceTarget, n - 1);
    }
  }

  /**
   * The inner loop of traceRoute: up to three echoes to the target at one TTL,
   * stopping early at a "TTL expired in transit" answer or at the stop event.
   */
  method ProbeHop(traceTarget: Addr, ttl: nat, echo: nat -> EchoOutcome,
                  probes: seq<Probe>, pushed: seq<IcmpEchoResult>)
    returns (stopped: bool, reply: IcmpEchoResult, probes': seq<Probe>, pushed': seq<IcmpEchoResult>)
    requires pushed == PushedResults(probes, echo, traceTarget, |probes|)
    ensures |probes| < |probes'| <= |probes| + TRIES_PER_TTL
    ensures probes'[..|probes|] == probes
    ensures forall i | |probes| <= i < |probes'| :: probes'[i] == Probe(traceTarget, ttl, TRACE_WAIT_MS)
    ensures forall i | |probes| <= i < |probes'| - 1 :: echo(i).Replied? && !ExpiredInTransit(echo(i).result)
    ensures stopped <==> echo(|probes'| - 1).Stopped?
    ensures !stopped ==> reply == echo(|probes'| - 1).result
    ensures !stopped ==> ExpiredInTransit(reply) || |probes'| == |probes| + TRIES_PER_TTL
    ensures pushed' == PushedResults(probes', echo, traceTarget, AnsweredCount(probes', echo))
  {
    probes', pushed' := probes, pushed;
    reply := IcmpEchoResult(0, 0, 0, 0, INADDR_ANY, 0);
    var tries := 0;
    while tries < TRIES_PER_TTL
      invariant 0 <= tries <= TRIES_PER_TTL && |probes'| == |probes| + tries
      invariant probes'[..|probes|] == probes
      invariant forall i | |probes| <= i < |probes'| :: probes'[i] == Probe(traceTarget, ttl, TRACE_WAIT_MS)
      invariant forall i | |probes| <= i < |probes'| :: echo(i).Replied? && !ExpiredInTransit(echo(i).result)
      invariant tries > 0 ==> reply == echo(|probes'| - 1).result
      invariant pushed' == PushedResults(probes', echo, traceTarget, |probes'|)
    {
      var outcome := echo(|probes'|);
      ghost var before := probes';
      probes' := probes' + [Probe(traceTarget, ttl, TRACE_WAIT_MS)];
      RunGrows(probes, before, probes', echo, traceTarget);
      if outcome.Stopped? {
        return true, reply, probes', pushed';
      }
      reply := outcome.result;
      pushed' := pushed' + [reply];
      if ExpiredInTransit(reply) {
        return false, reply, probes', pushed';
      }
      tries := tries + 1;
    }
    stopped := false;
  }

  /** One more probe keeps the earlier calls, and what they decided. */
  lemma RunGrows(probes: seq<Probe>, before: seq<Probe>, after: seq<Probe>, echo: nat -> EchoOutcome, traceTarget: Addr)
    requires |probes| <= |before| && before[..|probes|] == probes
    requires |after| == |before| + 1 && after[..|before|] == before
    ensures after[..|probes|] == probes && |after| - 1 == |before|
    ensures PushedResults(after, echo, traceTarget, |before|) == PushedResults(before, echo, traceTarget, |before|)
  {
    assert after[..|probes|] == before[..|probes|];
    PrefixDecides(before, after, echo, traceTarget, |before|);
  }

  /** Probe i was sent to the trace target. */
  ghost predicate TargetProbe(probes: seq<Probe>, traceTarget: Addr, i: int) {
    0 <= i < |probes| && probes[i].target == traceTarget
  }

  /** The first n calls all ended with a result. */
  ghost predicate AllAnswered(probes: seq<Probe>, echo: nat -> EchoOutcome, n: int) {
    forall i | 0 <= i < n :: echo(i).Replied?
  }

  /** Probe k ends the tries at its TTL: it was answered "TTL expired in transit", or it was the third try. */
  ghost predicate EndsTries(probes: seq<Probe>, echo: nat -> EchoOutcome, k: int)
    requires 0 <= k < |probes|
  {
    echo(k).Replied? && (ExpiredInTransit(echo(k).result) || (k >= 2 && probes[k - 2] == probes[k]))
  }

  /**
   * Target probe k is where the loops of traceRoute put it: TTL 0 first, at
   * most 128, after 250 ms; either a retry of the probe just before it, which
   * did not come back "TTL expired in transit", and not a fourth try; or the
   * next TTL, once the tries at the previous one ended, directly or after the
   * confirmation of the hop it found.
   */
  ghost predicate TargetStep(probes: seq<Probe>, echo: nat -> EchoOutcome, traceTarget: Addr, k: int)
    requires 0 <= k < |probes|
  {
    probes[k].ttl <= MAX_TTL && probes[k].waitMs == TRACE_WAIT_MS
    && if k == 0 then probes[k].ttl == 0
       else if probes[k - 1].target == traceTarget then
         (probes[k] == probes[k - 1] && echo(k - 1).Replied? && !ExpiredInTransit(echo(k - 1).result)
          && (k >= 3 ==> probes[k - 3] != probes[k]))
         || (probes[k].ttl == probes[k - 1].ttl + 1 && EndsTries(probes, echo, k - 1))
       else
         k >= 2 && probes[k - 2].target == traceTarget && probes[k].ttl == probes[k - 2].ttl + 1
  }

  /**
   * A confirmation probe at i: sent with TTL 128 after waiting 50 ms, to the
   * non-zero hop that the target probe just before it found "TTL expired in transit".
   */
  ghost predicate ConfirmsHop(probes: seq<Probe>, echo: nat -> EchoOutcome, traceTarget: Addr, i: int)
    requires 0 <= i < |probes|
  {
    probes[i].ttl == MAX_TTL && probes[i].waitMs == CONFIRM_WAIT_MS && probes[i].target != INADDR_ANY
    && i > 0 && probes[i - 1].target == traceTarget && echo(i - 1).Replied?
    && ExpiredInTransit(echo(i - 1).result) && echo(i - 1).result.responder == probes[i].target
  }

  /** Every probe that is not sent to the target confirms a hop. */
  ghost predicate HopsConfirmed(probes: seq<Probe>, echo: nat -> EchoOutcome, traceTarget: Addr) {
    forall i {:trigger ConfirmsHop(probes, echo, traceTarget, i)} | 0 <= i < |probes| && probes[i].target != traceTarget ::
      ConfirmsHop(probes, echo, traceTarget, i)
  }

  /** Probe i went to the target and the target itself answered it. */
  ghost predicate AnsweredByTarget(probes: seq<Probe>, echo: nat -> EchoOutcome, traceTarget: Addr, i: int) {
    TargetProbe(probes, traceTarget, i) && echo(i).Replied? && echo(i).result.responder == traceTarget
  }

  /** A probe that the target itself answered is followed, if by anything, by a retry at the same TTL. */
  ghost predicate TargetAnswersRetried(probes: seq<Probe>, echo: nat -> EchoOutcome, traceTarget: Addr) {
    forall i, j | AnsweredByTarget(probes, echo, traceTarget, i) && j == i + 1 && j < |probes| ::
      probes[j] == probes[i]
  }

  /** Every call of a trace is one that the loops of traceRoute make, in their order. */
  ghost predicate FollowsLoops(probes: seq<Probe>, echo: nat -> EchoOutcome, traceTarget: Addr) {
    (forall k {:trigger TargetStep(probes, echo, traceTarget, k)} | TargetProbe(probes, traceTarget, k) ::
       TargetStep(probes, echo, traceTarget, k))
    && HopsConfirmed(probes, echo, traceTarget) && TargetAnswersRetried(probes, echo, traceTarget)
  }

  /** Every TTL below ttl was probed, and no target probe used a TTL of ttl or more. */
  ghost predicate ProbedBelow(probes: seq<Probe>, traceTarget: Addr, ttl: nat) {
    (forall t | 0 <= t < ttl :: Probe(traceTarget, t, TRACE_WAIT_MS) in probes)
    && (forall i {:trigger TargetProbe(probes, traceTarget, i)} | TargetProbe(probes, traceTarget, i) ::
          probes[i].ttl < ttl)
  }

  /**
   * The tries at TTL ttl - 1 are over: the last target probe (the last call,
   * or the one before a final confirmation) used that TTL and ended its tries.
   */
  ghost predicate ReadyFor(probes: seq<Probe>, echo: nat -> EchoOutcome, traceTarget: Addr, ttl: nat) {
    if ttl == 0 then probes == []
    else
      var k := if TargetProbe(probes, traceTarget, |probes| - 1) then |probes| - 1 else |probes| - 2;
      TargetProbe(probes, traceTarget, k) && probes[k].ttl == ttl - 1 && EndsTries(probes, echo, k)
  }

  /** What holds between two TTLs of the tracer's outer loop. */
  ghost predicate TraceLoopInvariant(probes: seq<Probe>, echo: nat -> EchoOutcome, traceTarget: Addr, ttl: nat) {
    AllAnswered(probes, echo, |probes|) && FollowsLoops(probes, echo, traceTarget)
    && (|probes| > 0 ==> !AnsweredByTarget(probes, echo, traceTarget, |probes| - 1))
    && ProbedBelow(probes, traceTarget, ttl) && ReadyFor(probes, echo, traceTarget, ttl)
  }

  /** The facts about one TTL's run of probes that traceRoute's inner loop leaves behind. */
  ghost predicate HopRun(probes: seq<Probe>, probes': seq<Probe>, echo: nat -> EchoOutcome, traceTarget: Addr, ttl: nat) {
    |probes| < |probes'| <= |probes| + TRIES_PER_TTL && probes'[..|probes|] == probes
    && (forall i | |probes| <= i < |probes'| :: probes'[i] == Probe(traceTarget, ttl, TRACE_WAIT_MS))
    && (forall i | |probes| <= i < |probes'| - 1 :: echo(i).Replied? && !ExpiredInTransit(echo(i).result))
  }

  /** The new target probes of a run are each where the loops put them. */
  lemma HopRunSteps(probes: seq<Probe>, probes': seq<Probe>, echo: nat -> EchoOutcome, traceTarget: Addr, ttl: nat)
    requires ttl <= MAX_TTL && HopRun(probes, probes', echo, traceTarget, ttl)
    requires forall k {:trigger TargetStep(probes, echo, traceTarget, k)} | TargetProbe(probes, traceTarget, k) ::
               TargetStep(probes, echo, traceTarget, k)
    requires forall i {:trigger TargetProbe(probes, traceTarget, i)} | TargetProbe(probes, traceTarget, i) ::
               probes[i].ttl < ttl
    requires ReadyFor(probes, echo, traceTarget, ttl)
    ensures forall k {:trigger TargetStep(probes', echo, traceTarget, k)} | TargetProbe(probes', traceTarget, k) ::
              TargetStep(probes', echo, traceTarget, k)
  {
    var n := |probes|;
    forall i | 0 <= i < n ensures probes'[i] == probes[i] {
      assert probes'[..n][i] == probes[i];
    }
    forall k | TargetProbe(probes', traceTarget, k) ensures TargetStep(probes', echo, traceTarget, k) {
      if k < n {
        assert TargetProbe(probes, traceTarget, k) && TargetStep(probes, echo, traceTarget, k);
        if k > 0 && probes[k - 1].target == traceTarget {
          assert EndsTries(probes', echo, k - 1) == EndsTries(probes, echo, k - 1);
        }
      } else if k == n {
        assert probes'[k] == Probe(traceTarget, ttl, TRACE_WAIT_MS);
        if k > 0 {
          if probes[k - 1].target == traceTarget {
            assert TargetProbe(probes, traceTarget, k - 1);
            assert EndsTries(probes', echo, k - 1);
          } else {
            assert TargetProbe(probes, traceTarget, k - 2);
          }
        }
      } else {
        assert probes'[k - 1] == probes'[k];
        if k >= 3 && k - 3 < n && probes[k - 3].target == traceTarget {
          assert TargetProbe(probes, traceTarget, k - 3);
        }
      }
    }
  }

  /** A run keeps every other probe a confirmation and every answer from the target retried. */
  lemma HopRunKeepsConfirmations(probes: seq<Probe>, probes': seq<Probe>, echo: nat -> EchoOutcome,
                                 traceTarget: Addr, ttl: nat)
    requires HopRun(probes, probes', echo, traceTarget, ttl)
    requires HopsConfirmed(probes, echo, traceTarget) && TargetAnswersRetried(probes, echo, traceTarget)
    requires |probes| > 0 ==> !AnsweredByTarget(probes, echo, traceTarget, |probes| - 1)
    ensures HopsConfirmed(probes', echo, traceTarget) && TargetAnswersRetried(probes', echo, traceTarget)
  {
    var n := |probes|;
    forall i | 0 <= i < n ensures probes'[i] == probes[i] {
      assert probes'[..n][i] == probes[i];
    }
    forall i | 0 <= i < |probes'| && probes'[i].target != traceTarget
      ensures ConfirmsHop(probes', echo, traceTarget, i)
    {
      assert ConfirmsHop(probes, echo, traceTarget, i);
    }
    forall i, j | AnsweredByTarget(probes', echo, traceTarget, i) && j == i + 1 && j < |probes'|
      ensures probes'[j] == probes'[i]
    {
      if j < n {
        assert AnsweredByTarget(probes, echo, traceTarget, i);
      }
    }
  }

  /** After a run at ttl every TTL up to ttl was probed, and the tries at ttl are over once the run ended them. */
  lemma HopRunCovers(probes: seq<Probe>, probes': seq<Probe>, echo: nat -> EchoOutcome, traceTarget: Addr, ttl: nat)
    requires HopRun(probes, probes', echo, traceTarget, ttl) && ProbedBelow(probes, traceTarget, ttl)
    requires AllAnswered(probes, echo, |probes|)
    ensures ProbedBelow(probes', traceTarget, ttl + 1) && AllAnswered(probes', echo, |probes'| - 1)
    ensures echo(|probes'| - 1).Replied?
              && (ExpiredInTransit(echo(|probes'| - 1).result) || |probes'| == |probes| + TRIES_PER_TTL)
            ==> ReadyFor(probes', echo, traceTarget, ttl + 1)
  {
    var n := |probes|;
    forall i | 0 <= i < n ensures probes'[i] == probes[i] {
      assert probes'[..n][i] == probes[i];
    }
    assert probes'[n] == Probe(traceTarget, ttl, TRACE_WAIT_MS);
    forall i | TargetProbe(probes', traceTarget, i) ensures probes'[i].ttl < ttl + 1 {
      if i < n {
        assert TargetProbe(probes, traceTarget, i);
      }
    }
    forall t | 0 <= t < ttl + 1 ensures Probe(traceTarget, t, TRACE_WAIT_MS) in probes' {
      if t < ttl {
        assert Probe(traceTarget, t, TRACE_WAIT_MS) in probes;
        var k :| 0 <= k < n && probes[k] == Probe(traceTarget, t, TRACE_WAIT_MS);
        assert probes'[k] == probes[k];
      }
    }
    assert TargetProbe(probes', traceTarget, |probes'| - 1);
    if |probes'| == n + TRIES_PER_TTL {
      assert probes'[|probes'| - 3] == probes'[|probes'| - 1];
    }
  }

  /** After a run at ttl the trace still follows the loops, and is ready for the next TTL once the run ended its tries. */
  lemma HopRunFollowsLoops(probes: seq<Probe>, probes': seq<Probe>, echo: nat -> EchoOutcome,
                           traceTarget: Addr, ttl: nat)
    requires ttl <= MAX_TTL && TraceLoopInvariant(probes, echo, traceTarget, ttl)
    requires |probes| < |probes'| <= |probes| + TRIES_PER_TTL && probes'[..|probes|] == probes
    requires forall i | |probes| <= i < |probes'| :: probes'[i] == Probe(traceTarget, ttl, TRACE_WAIT_MS)
    requires forall i | |probes| <= i < |probes'| - 1 :: echo(i).Replied? && !ExpiredInTransit(echo(i).result)
    ensures TraceShape(probes', echo, traceTarget) && TargetProbe(probes', traceTarget, |probes'| - 1)
    ensures HopRun(probes, probes', echo, traceTarget, ttl)
    ensures echo(|probes'| - 1).Replied?
              && (ExpiredInTransit(echo(|probes'| - 1).result) || |probes'| == |probes| + TRIES_PER_TTL)
            ==> EndsTries(probes', echo, |probes'| - 1)
    ensures echo(|probes'| - 1).Replied? && echo(|probes'| - 1).result.responder != traceTarget
              && (ExpiredInTransit(echo(|probes'| - 1).result) || |probes'| == |probes| + TRIES_PER_TTL)
            ==> TraceLoopInvariant(probes', echo, traceTarget, ttl + 1)
  {
    assert HopRun(probes, probes', echo, traceTarget, ttl);
    HopRunSteps(probes, probes', echo, traceTarget, ttl);
    HopRunKeepsConfirmations(probes, probes', echo, traceTarget, ttl);
    HopRunCovers(probes, probes', echo, traceTarget, ttl);
  }

  /** Appending the confirmation of the hop that the last target probe found. */
  lemma AfterConfirmation(probes: seq<Probe>, echo: nat -> EchoOutcome, traceTarget: Addr, ttl: nat, hop: Addr)
    requires FollowsLoops(probes, echo, traceTarget)
    requires ProbedBelow(probes, traceTarget, ttl) && ReadyFor(probes, echo, traceTarget, ttl)
    requires TargetProbe(probes, traceTarget, |probes| - 1) && echo(|probes| - 1).Replied?
    requires ExpiredInTransit(echo(|probes| - 1).result) && echo(|probes| - 1).result.responder == hop
    requires hop != INADDR_ANY && hop != traceTarget
    ensures var probes' := probes + [Probe(hop, MAX_TTL, CONFIRM_WAIT_MS)];
      FollowsLoops(probes', echo, traceTarget)
      && ProbedBelow(probes', traceTarget, ttl) && ReadyFor(probes', echo, traceTarget, ttl)
  {
    var probes' := probes + [Probe(hop, MAX_TTL, CONFIRM_WAIT_MS)];
    var n := |probes|;
    forall k | TargetProbe(probes', traceTarget, k) ensures TargetStep(probes', echo, traceTarget, k) {
      assert TargetProbe(probes, traceTarget, k) && TargetStep(probes, echo, traceTarget, k);
      if k > 0 && probes[k - 1].target == traceTarget {
        assert EndsTries(probes', echo, k - 1) == EndsTries(probes, echo, k - 1);
      }
    }
    forall i | 0 <= i < |probes'| && probes'[i].target != traceTarget
      ensures ConfirmsHop(probes', echo, traceTarget, i)
    {
      if i < n {
        assert ConfirmsHop(probes, echo, traceTarget, i);
      }
    }
    forall i | TargetProbe(probes', traceTarget, i) ensures probes'[i].ttl < ttl {
      assert TargetProbe(probes, traceTarget, i);
    }
    forall t | 0 <= t < ttl ensures Probe(traceTarget, t, TRACE_WAIT_MS) in probes' {
      assert Probe(traceTarget, t, TRACE_WAIT_MS) in probes;
    }
    if ttl > 0 {
      assert TargetProbe(probes, traceTarget, n - 1);
      assert EndsTries(probes', echo, n - 1);
    }
  }

  /** Target probes do not change which private hop was confirmed last. */
  lemma {:induction false} LastPrivateNodeAfterTargetProbes(probes': seq<Probe>, echo: nat -> EchoOutcome,
                                                            traceTarget: Addr, n: nat, n': nat)
    requires n <= n' <= |probes'|
    requires forall i | n <= i < n' :: probes'[i].target == traceTarget
    ensures LastPrivateNode(probes', echo, traceTarget, n') == LastPrivateNode(probes', echo, traceTarget, n)
    decreases n'
  {
    if n < n' {
      LastPrivateNodeAfterTargetProbes(probes', echo, traceTarget, n, n' - 1);
    }
  }

  /** How a successful trace ended, by the last call it made. */
  ghost predicate TraceFound(probes: seq<Probe>, echo: nat -> EchoOutcome, traceType: TraceType,
                             traceTarget: Addr, found: Addr)
    requires |probes| > 0 && echo(|probes| - 1).Replied?
  {
    var k := |probes| - 1;
    var r := echo(k).result;
    // the target itself answered a probe
    (probes[k].target == traceTarget && r.responder == traceTarget && found == traceTarget)
    // LAST_PRIVATE: the first public hop ends the search at the last confirmed private one
    || (traceType == LastPrivate && probes[k].target == traceTarget && ExpiredInTransit(r)
        && r.responder != traceTarget && IsPublicAddress(r.responder)
        && found == LastPrivateNode(probes, echo, traceTarget, |probes|))
    // FIRST_PUBLIC: a public hop answered its own echo
    || (traceType == FirstPublic && probes[k].target != traceTarget && IsPublicAddress(probes[k].target)
        && Succeeded(r) && found == r.responder)
  }

  /** What holds of the calls of a trace however it ended: no call after the stop event, and each call where the loops put it. */
  ghost predicate TraceShape(probes: seq<Probe>, echo: nat -> EchoOutcome, traceTarget: Addr) {
    |probes| > 0 && AllAnswered(probes, echo, |probes| - 1) && FollowsLoops(probes, echo, traceTarget)
  }

  /** How one pass of traceRoute's outer loop ends. */
  datatype HopEnd = NextTtl | Stop | Found(node: Addr)

  /**
   * Call k ends the trace with a node: the last try at a TTL that the target
   * itself answered; under LAST_PRIVATE, the last try at a TTL answered
   * "TTL expired in transit" by a non-zero public hop; under FIRST_PUBLIC, a
   * confirmation of a public hop that came back with error 0 and status 0.
   */
  ghost predicate Decides(probes: seq<Probe>, echo: nat -> EchoOutcome, traceType: TraceType, traceTarget: Addr, k: int)
    requires 0 <= k < |probes|
  {
    echo(k).Replied?
    && var r := echo(k).result;
    if probes[k].target == traceTarget then
      EndsTries(probes, echo, k)
      && (r.responder == traceTarget
          || (traceType == LastPrivate && ExpiredInTransit(r) && r.responder != INADDR_ANY && IsPublicAddress(r.responder)))
    else
      traceType == FirstPublic && IsPublicAddress(probes[k].target) && Succeeded(r)
  }

  /**
   * Target probe k found a hop that traceRoute confirms next: a non-zero hop
   * other than the target, answering "TTL expired in transit", that is
   * private, or public under FIRST_PUBLIC.
   */
  ghost predicate NeedsConfirmation(probes: seq<Probe>, echo: nat -> EchoOutcome, traceType: TraceType,
                                    traceTarget: Addr, k: int)
    requires 0 <= k < |probes|
  {
    probes[k].target == traceTarget && echo(k).Replied?
    && var r := echo(k).result;
    ExpiredInTransit(r) && r.responder != INADDR_ANY && r.responder != traceTarget
    && (!IsPublicAddress(r.responder) || traceType == FirstPublic)
  }

  /** None of the first n calls ended the trace. */
  ghost predicate Undecided(probes: seq<Probe>, echo: nat -> EchoOutcome, traceType: TraceType, traceTarget: Addr, n: int)
    requires n <= |probes|
  {
    forall k | 0 <= k < n :: !Decides(probes, echo, traceType, traceTarget, k)
  }

  /** Call k follows a target probe with a confirmation exactly when that probe needed one. */
  ghost predicate ConfirmStep(probes: seq<Probe>, echo: nat -> EchoOutcome, traceType: TraceType, traceTarget: Addr, k: int)
    requires 0 < k < |probes|
  {
    probes[k - 1].target == traceTarget ==>
      (probes[k].target != traceTarget <==> NeedsConfirmation(probes, echo, traceType, traceTarget, k - 1))
  }

  /** Among the first n calls, a hop was confirmed exactly when it needed it. */
  ghost predicate ConfirmsUpTo(probes: seq<Probe>, echo: nat -> EchoOutcome, traceType: TraceType, traceTarget: Addr, n: int)
    requires n <= |probes|
  {
    forall k | 0 < k < n :: ConfirmStep(probes, echo, traceType, traceTarget, k)
  }

  /** No call before the last ended the trace, and every needed confirmation was sent. */
  ghost predicate UpToLast(probes: seq<Probe>, echo: nat -> EchoOutcome, traceType: TraceType, traceTarget: Addr) {
    |probes| > 0 && Undecided(probes, echo, traceType, traceTarget, |probes| - 1)
    && ConfirmsUpTo(probes, echo, traceType, traceTarget, |probes|)
  }

  /** Between two TTLs: no call ended the trace and no confirmation is outstanding. */
  ghost predicate GoesOn(probes: seq<Probe>, echo: nat -> EchoOutcome, traceType: TraceType, traceTarget: Addr) {
    Undecided(probes, echo, traceType, traceTarget, |probes|)
    && ConfirmsUpTo(probes, echo, traceType, traceTarget, |probes|)
    && (|probes| > 0 ==> !NeedsConfirmation(probes, echo, traceType, traceTarget, |probes| - 1))
  }

  /** What a pass of the outer loop that ended with `end` leaves behind. */
  ghost predicate HopOutcome(probes: seq<Probe>, echo: nat -> EchoOutcome, traceType: TraceType, traceTarget: Addr,
                             end: HopEnd)
  {
    match end
    case NextTtl => GoesOn(probes, echo, traceType, traceTarget)
    case Stop => UpToLast(probes, echo, traceType, traceTarget) && echo(|probes| - 1).Stopped?
    case Found(_) =>
      UpToLast(probes, echo, traceType, traceTarget) && Decides(probes, echo, traceType, traceTarget, |probes| - 1)
  }

  /** Later calls do not change which of the first n calls decided the trace or needed a confirmation. */
  lemma DecisionsPrefix(probes: seq<Probe>, probes': seq<Probe>, echo: nat -> EchoOutcome, traceType: TraceType,
                        traceTarget: Addr, n: nat)
    requires n <= |probes| <= |probes'| && probes'[..|probes|] == probes
    ensures Undecided(probes', echo, traceType, traceTarget, n) == Undecided(probes, echo, traceType, traceTarget, n)
    ensures ConfirmsUpTo(probes', echo, traceType, traceTarget, n) == ConfirmsUpTo(probes, echo, traceType, traceTarget, n)
    ensures 0 < n ==>
      NeedsConfirmation(probes', echo, traceType, traceTarget, n - 1)
      == NeedsConfirmation(probes, echo, traceType, traceTarget, n - 1)
  {
    forall i | 0 <= i < |probes| ensures probes'[i] == probes[i] {
      assert probes'[..|probes|][i] == probes[i];
    }
    forall k | 0 <= k < n
      ensures Decides(probes', echo, traceType, traceTarget, k) == Decides(probes, echo, traceType, traceTarget, k)
    {
      assert EndsTries(probes', echo, k) == EndsTries(probes, echo, k);
    }
    forall k | 0 < k < n
      ensures ConfirmStep(probes', echo, traceType, traceTarget, k) == ConfirmStep(probes, echo, traceType, traceTarget, k)
    {
      assert NeedsConfirmation(probes', echo, traceType, traceTarget, k - 1)
        == NeedsConfirmation(probes, echo, traceType, traceTarget, k - 1);
    }
  }

  /**
   * The tries of a run at one TTL decide nothing before the last of them and
   * follow no probe that needed a confirmation.
   */
  lemma HopRunGoesOn(probes: seq<Probe>, run: seq<Probe>, echo: nat -> EchoOutcome, traceType: TraceType,
                     traceTarget: Addr, ttl: nat)
    requires HopRun(probes, run, echo, traceTarget, ttl) && ProbedBelow(probes, traceTarget, ttl)
    requires GoesOn(probes, echo, traceType, traceTarget)
    ensures UpToLast(run, echo, traceType, traceTarget)
  {
    var n := |probes|;
    DecisionsPrefix(probes, run, echo, traceType, traceTarget, n);
    forall i | 0 <= i < n ensures run[i] == probes[i] {
      assert run[..n][i] == probes[i];
    }
    forall k | n <= k < |run| - 1 ensures !Decides(run, echo, traceType, traceTarget, k) {
      if k >= 2 && k - 2 < n && run[k - 2].target == traceTarget {
        assert TargetProbe(probes, traceTarget, k - 2);
      }
    }
    forall k | n <= k < |run| && k > 0 ensures ConfirmStep(run, echo, traceType, traceTarget, k) {
    }
  }

  /**
   * The echo that traceRoute sends to a hop found "TTL expired in transit":
   * a private hop that answers becomes lastPrivateNode; under FIRST_PUBLIC a
   * public hop's answer is pushed, and ends the trace if it succeeded.
   */
  method ConfirmHop(traceType: TraceType, traceTarget: Addr, ttl: nat, hop: Addr, echo: nat -> EchoOutcome,
                    probes: seq<Probe>, pushed: seq<IcmpEchoResult>, lastPrivateNode: Addr)
    returns (end: HopEnd, probes': seq<Probe>, pushed': seq<IcmpEchoResult>, lastPrivateNode': Addr)
    requires AllAnswered(probes, echo, |probes|) && FollowsLoops(probes, echo, traceTarget)
    requires ProbedBelow(probes, traceTarget, ttl) && ReadyFor(probes, echo, traceTarget, ttl)
    requires TargetProbe(probes, traceTarget, |probes| - 1) && echo(|probes| - 1).Replied?
    requires ExpiredInTransit(echo(|probes| - 1).result) && echo(|probes| - 1).result.responder == hop
    requires hop != INADDR_ANY && hop != traceTarget
    requires IsPublicAddress(hop) ==> traceType == FirstPublic
    requires pushed == PushedResults(probes, echo, traceTarget, |probes|)
    requires lastPrivateNode == LastPrivateNode(probes, echo, traceTarget, |probes|)
    requires UpToLast(probes, echo, traceType, traceTarget)
    ensures probes' == probes + [Probe(hop, MAX_TTL, CONFIRM_WAIT_MS)]
    ensures TraceShape(probes', echo, traceTarget) && !AnsweredByTarget(probes', echo, traceTarget, |probes|)
    ensures end == Stop <==> echo(|probes|).Stopped?
    ensures echo(|probes|).Replied? && IsPublicAddress(hop) && Succeeded(echo(|probes|).result) ==>
      end == Found(echo(|probes|).result.responder)
    ensures echo(|probes|).Replied? && !(IsPublicAddress(hop) && Succeeded(echo(|probes|).result)) ==>
      end == NextTtl
    ensures HopOutcome(probes', echo, traceType, traceTarget, end)
    ensures end == NextTtl ==>
      TraceLoopInvariant(probes', echo, traceTarget, ttl)
      && pushed' == PushedResults(probes', echo, traceTarget, |probes'|)
      && lastPrivateNode' == LastPrivateNode(probes', echo, traceTarget, |probes'|)
    ensures end == Stop ==>
      echo(|probes|).Stopped? && pushed' == PushedResults(probes', echo, traceTarget, |probes|)
    ensures end.Found? ==>
      echo(|probes|).Replied? && TraceFound(probes', echo, traceType, traceTarget, end.node)
      && pushed' == PushedResults(probes', echo, traceTarget, |probes'|)
  {
    var outcome := echo(|probes|);
    var confirm := Probe(hop, MAX_TTL, CONFIRM_WAIT_MS);
    AfterConfirmation(probes, echo, traceTarget, ttl, hop);
    probes' := probes + [confirm];
    assert probes'[..|probes|] == probes;
    PrefixDecides(probes, probes', echo, traceTarget, |probes|);
    DecisionsPrefix(probes, probes', echo, traceType, traceTarget, |probes|);
    assert !Decides(probes', echo, traceType, traceTarget, |probes| - 1);
    assert ConfirmStep(probes', echo, traceType, traceTarget, |probes|);
    end, pushed', lastPrivateNode' := NextTtl, pushed, lastPrivateNode;
    if outcome.Stopped? {
      end := Stop;
    } else if !IsPublicAddress(hop) {
      if Succeeded(outcome.result) {
        lastPrivateNode' := outcome.result.responder;
      }
    } else {
      pushed' := pushed' + [outcome.result];
      if Succeeded(outcome.result) {
        end := Found(outcome.result.responder);
      }
    }
  }

  /**
   * What traceRoute does once the tries at one TTL are over and the target
   * did not answer: confirm the hop found "TTL expired in transit", or end a
   * LAST_PRIVATE trace at the first public hop. `ttl` is the next TTL.
   */
  method DecideHop(traceType: TraceType, traceTarget: Addr, ttl: nat, echo: nat -> EchoOutcome,
                   probes: seq<Probe>, pushed: seq<IcmpEchoResult>, lastPrivateNode: Addr)
    returns (end: HopEnd, probes': seq<Probe>, pushed': seq<IcmpEchoResult>, lastPrivateNode': Addr)
    requires TraceLoopInvariant(probes, echo, traceTarget, ttl) && TargetProbe(probes, traceTarget, |probes| - 1)
    requires pushed == PushedResults(probes, echo, traceTarget, |probes|)
    requires lastPrivateNode == LastPrivateNode(probes, echo, traceTarget, |probes|)
    requires UpToLast(probes, echo, traceType, traceTarget)
    ensures var r := echo(|probes| - 1).result;
      ExpiredInTransit(r) && r.responder != INADDR_ANY && IsPublicAddress(r.responder) && traceType == LastPrivate ==>
        end == Found(lastPrivateNode) && probes' == probes
    ensures var r := echo(|probes| - 1).result;
      ExpiredInTransit(r) && r.responder != INADDR_ANY && (!IsPublicAddress(r.responder) || traceType == FirstPublic) ==>
        probes' == probes + [Probe(r.responder, MAX_TTL, CONFIRM_WAIT_MS)]
    ensures var r := echo(|probes| - 1).result;
      !(ExpiredInTransit(r) && r.responder != INADDR_ANY) || (IsPublicAddress(r.responder) && traceType == FullTrace) ==>
        end == NextTtl && probes' == probes
    ensures HopOutcome(probes', echo, traceType, traceTarget, end)
    ensures TraceShape(probes', echo, traceTarget) && !AnsweredByTarget(probes', echo, traceTarget, |probes'| - 1)
    ensures end == NextTtl ==>
      TraceLoopInvariant(probes', echo, traceTarget, ttl)
      && pushed' == PushedResults(probes', echo, traceTarget, |probes'|)
      && lastPrivateNode' == LastPrivateNode(probes', echo, traceTarget, |probes'|)
    ensures end == Stop ==>
      echo(|probes'| - 1).Stopped? && pushed' == PushedResults(probes', echo, traceTarget, |probes'| - 1)
    ensures end.Found? ==>
      echo(|probes'| - 1).Replied? && TraceFound(probes', echo, traceType, traceTarget, end.node)
      && pushed' == PushedResults(probes', echo, traceTarget, |probes'|)
  {
    var reply := echo(|probes| - 1).result;
    assert NeedsConfirmation(probes, echo, traceType, traceTarget, |probes| - 1)
      <==> ExpiredInTransit(reply) && reply.responder != INADDR_ANY
           && (!IsPublicAddress(reply.responder) || traceType == FirstPublic);
    end, probes', pushed', lastPrivateNode' := NextTtl, probes, pushed, lastPrivateNode;
    if ExpiredInTransit(reply) && reply.responder != INADDR_ANY {
      var hop := reply.responder;
      if !IsPublicAddress(hop) || traceType == FirstPublic {
        end, probes', pushed', lastPrivateNode' :=
          ConfirmHop(traceType, traceTarget, ttl, hop, echo, probes, pushed, lastPrivateNode);
      } else if traceType == LastPrivate {
        end := Found(lastPrivateNode);
      }
    }
  }

  /** One pass of traceRoute's outer loop: the probes at one TTL and what follows them. */
  method TraceHop(traceType: TraceType, traceTarget: Addr, ttl: nat, echo: nat -> EchoOutcome,
                  probes: seq<Probe>, pushed: seq<IcmpEchoResult>, lastPrivateNode: Addr)
    returns (end: HopEnd, probes': seq<Probe>, pushed': seq<IcmpEchoResult>, lastPrivateNode': Addr)
    requires ttl <= MAX_TTL && TraceLoopInvariant(probes, echo, traceTarget, ttl)
    requires pushed == PushedResults(probes, echo, traceTarget, |probes|)
    requires lastPrivateNode == LastPrivateNode(probes, echo, traceTarget, |probes|)
    requires GoesOn(probes, echo, traceType, traceTarget)
    ensures HopOutcome(probes', echo, traceType, traceTarget, end)
    ensures TraceShape(probes', echo, traceTarget)
    ensures end == NextTtl ==>
      TraceLoopInvariant(probes', echo, traceTarget, ttl + 1)
      && pushed' == PushedResults(probes', echo, traceTarget, |probes'|)
      && lastPrivateNode' == LastPrivateNode(probes', echo, traceTarget, |probes'|)
    ensures end == Stop ==>
      echo(|probes'| - 1).Stopped? && pushed' == PushedResults(probes', echo, traceTarget, |probes'| - 1)
    ensures end.Found? ==>
      echo(|probes'| - 1).Replied? && TraceFound(probes', echo, traceType, traceTarget, end.node)
      && pushed' == PushedResults(probes', echo, traceTarget, |probes'|)
    ensures AnsweredByTarget(probes', echo, traceTarget, |probes'| - 1) ==> end == Found(traceTarget)
  {
    var stopped, reply, run, runPushed := ProbeHop(traceTarget, ttl, echo, probes, pushed);
    HopRunFollowsLoops(probes, run, echo, traceTarget, ttl);
    HopRunGoesOn(probes, run, echo, traceType, traceTarget, ttl);
    PrefixDecides(probes, run, echo, traceTarget, |probes|);
    LastPrivateNodeAfterTargetProbes(run, echo, traceTarget, |probes|, |run|);
    end, probes', pushed', lastPrivateNode' :=
      FinishHop(traceType, traceTarget, ttl, echo, stopped, reply, run, runPushed, lastPrivateNode);
  }

  /**
   * What follows the tries at one TTL: the stop event ends the trace, an
   * answer from the target itself ends it with the target, and otherwise
   * DecideHop goes on.
   */
  method FinishHop(traceType: TraceType, traceTarget: Addr, ttl: nat, echo: nat -> EchoOutcome,
                   stopped: bool, reply: IcmpEchoResult, run: seq<Probe>, runPushed: seq<IcmpEchoResult>,
                   lastPrivateNode: Addr)
    returns (end: HopEnd, probes': seq<Probe>, pushed': seq<IcmpEchoResult>, lastPrivateNode': Addr)
    requires TraceShape(run, echo, traceTarget) && TargetProbe(run, traceTarget, |run| - 1)
    requires stopped <==> echo(|run| - 1).Stopped?
    requires !stopped ==> reply == echo(|run| - 1).result
    requires !stopped && reply.responder != traceTarget ==> TraceLoopInvariant(run, echo, traceTarget, ttl + 1)
    requires runPushed == PushedResults(run, echo, traceTarget, AnsweredCount(run, echo))
    requires lastPrivateNode == LastPrivateNode(run, echo, traceTarget, |run|)
    requires !stopped ==> EndsTries(run, echo, |run| - 1)
    requires UpToLast(run, echo, traceType, traceTarget)
    ensures stopped ==> end == Stop && probes' == run
    ensures !stopped && reply.responder == traceTarget ==> end == Found(traceTarget) && probes' == run
    ensures HopOutcome(probes', echo, traceType, traceTarget, end)
    ensures TraceShape(probes', echo, traceTarget)
    ensures end == NextTtl ==>
      TraceLoopInvariant(probes', echo, traceTarget, ttl + 1)
      && pushed' == PushedResults(probes', echo, traceTarget, |probes'|)
      && lastPrivateNode' == LastPrivateNode(probes', echo, traceTarget, |probes'|)
    ensures end == Stop ==>
      echo(|probes'| - 1).Stopped? && pushed' == PushedResults(probes', echo, traceTarget, |probes'| - 1)
    ensures end.Found? ==>
      echo(|probes'| - 1).Replied? && TraceFound(probes', echo, traceType, traceTarget, end.node)
      && pushed' == PushedResults(probes', echo, traceTarget, |probes'|)
    ensures AnsweredByTarget(probes', echo, traceTarget, |probes'| - 1) ==> end == Found(traceTarget)
  {
    if stopped {
      return Stop, run, runPushed, lastPrivateNode;
    }
    if reply.responder == traceTarget {
      return Found(traceTarget), run, runPushed, lastPrivateNode;
    }
    end, probes', pushed', lastPrivateNode' := DecideHop(traceType, traceTarget, ttl + 1, echo, run, runPushed, lastPrivateNode);
  }

  /**
   * traceRoute. Returns whether a node was found and the (possibly unchanged)
   * traceResult, with the calls made and the results pushed to the handler.
   */
  method TraceRoute(traceResult: Addr, traceType: TraceType, traceTarget: Addr, echo: nat -> EchoOutcome)
    returns (found: bool, result: Addr, probes: seq<Probe>, pushed: seq<IcmpEchoResult>)
    ensures TraceShape(probes, echo, traceTarget)
    ensures AnsweredByTarget(probes, echo, traceTarget, |probes| - 1) ==> found && result == traceTarget
    ensures found ==> echo(|probes| - 1).Replied? && TraceFound(probes, echo, traceType, traceTarget, result)
    ensures found && traceType == FullTrace ==> result == traceTarget
    ensures !found ==> result == traceResult
    ensures !found ==>
      echo(|probes| - 1).Stopped? || forall t | 0 <= t <= MAX_TTL :: Probe(traceTarget, t, TRACE_WAIT_MS) in probes
    ensures pushed == PushedResults(probes, echo, traceTarget, AnsweredCount(probes, echo))
    ensures UpToLast(probes, echo, traceType, traceTarget)
    ensures found <==> echo(|probes| - 1).Replied? && Decides(probes, echo, traceType, traceTarget, |probes| - 1)
    ensures !found && echo(|probes| - 1).Replied? ==>
      ReadyFor(probes, echo, traceTarget, MAX_TTL + 1)
      && !NeedsConfirmation(probes, echo, traceType, traceTarget, |probes| - 1)
  {
    var lastPrivateNode := LOCALHOST;
    probes, pushed, result := [], [], traceResult;
    var ttl := 0;
    while ttl <= MAX_TTL
      invariant 0 <= ttl <= MAX_TTL + 1
      invariant TraceLoopInvariant(probes, echo, traceTarget, ttl)
      invariant ttl > 0 ==> TraceShape(probes, echo, traceTarget)
      invariant lastPrivateNode == LastPrivateNode(probes, echo, traceTarget, |probes|)
      invariant pushed == PushedResults(probes, echo, traceTarget, |probes|)
      invariant result == traceResult
      invariant GoesOn(probes, echo, traceType, traceTarget)
    {
      var end;
      end, probes, pushed, lastPrivateNode := TraceHop(traceType, traceTarget, ttl, echo, probes, pushed, lastPrivateNode);
      if end == Stop {
        return false, result, probes, pushed;
      } else if end.Found? {
        return true, end.node, probes, pushed;
      }
      ttl := ttl + 1;
    }
    found := false;
  }

  // ---------------------------------------------------------------------------
  // What the step-by-step description of a trace says about whole traces

  /** FollowsLoops read at one target probe. */
  lemma StepAt(probes: seq<Probe>, echo: nat -> EchoOutcome, traceTarget: Addr, k: int)
    requires FollowsLoops(probes, echo, traceTarget) && TargetProbe(probes, traceTarget, k)
    ensures TargetStep(probes, echo, traceTarget, k)
  {
  }

  /** Target probes never go back to a smaller TTL. */
  lemma {:induction false} TargetTtlsNondecreasing(probes: seq<Probe>, echo: nat -> EchoOutcome, traceTarget: Addr,
                                                   i: int, j: int)
    requires FollowsLoops(probes, echo, traceTarget)
    requires TargetProbe(probes, traceTarget, i) && TargetProbe(probes, traceTarget, j) && i <= j
    ensures probes[i].ttl <= probes[j].ttl
    decreases j - i
  {
    if i < j {
      assert TargetStep(probes, echo, traceTarget, j);
      if probes[j - 1].target == traceTarget {
        TargetTtlsNondecreasing(probes, echo, traceTarget, i, j - 1);
      } else {
        TargetTtlsNondecreasing(probes, echo, traceTarget, i, j - 2);
      }
    }
  }

  /** Between two equal target probes every call is that same probe: the tries at one TTL come in one run. */
  lemma {:induction false} EqualTargetProbesAreContiguous(probes: seq<Probe>, echo: nat -> EchoOutcome,
                                                          traceTarget: Addr, i: int, j: int)
    requires FollowsLoops(probes, echo, traceTarget)
    requires TargetProbe(probes, traceTarget, i) && i <= j < |probes| && probes[j] == probes[i]
    ensures forall k | i <= k <= j :: probes[k] == probes[i]
    decreases j - i
  {
    if i < j {
      assert TargetProbe(probes, traceTarget, j) && TargetStep(probes, echo, traceTarget, j);
      if probes[j - 1].target != traceTarget {
        TargetTtlsNondecreasing(probes, echo, traceTarget, i, j - 2);
        assert false;
      }
      TargetTtlsNondecreasing(probes, echo, traceTarget, i, j - 1);
      EqualTargetProbesAreContiguous(probes, echo, traceTarget, i, j - 1);
    }
  }

  /**
   * The same target probe is sent at most three times, and it is sent again
   * only after an answer that was not "TTL expired in transit".
   */
  lemma AtMostThreeTries(probes: seq<Probe>, echo: nat -> EchoOutcome, traceTarget: Addr, i: int, j: int)
    requires FollowsLoops(probes, echo, traceTarget)
    requires TargetProbe(probes, traceTarget, i) && i < j < |probes| && probes[j] == probes[i]
    ensures j - i < TRIES_PER_TTL
    ensures forall k | i <= k < j :: echo(k).Replied? && !ExpiredInTransit(echo(k).result)
  {
    EqualTargetProbesAreContiguous(probes, echo, traceTarget, i, j);
    if j - i >= TRIES_PER_TTL {
      assert probes[i + 3] == probes[i];
      StepAt(probes, echo, traceTarget, i + 3);
      assert false;
    }
    forall k | i <= k < j ensures echo(k).Replied? && !ExpiredInTransit(echo(k).result) {
      assert probes[k] == probes[k + 1];
      StepAt(probes, echo, traceTarget, k + 1);
    }
  }
}
