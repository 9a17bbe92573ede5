/**
 * The older ping monitor: a route-discovery state machine that settles on
 * the host to ping, then pings it and keeps a sorted history of samples.
 *
 * An echo request runs on a worker thread in the source; here it is a
 * record whose result is either not there yet or ready, and the method
 * Complete stands for the worker finishing it. Time points are integer
 * nanoseconds of the steady clock, and one tick reads the clock once.
 */
module PingMonitor {
  import opened Wrappers
  import opened Icmp
  import PingData

  /** 8.8.8.8, the address the search for the first public node probes. */
  const TRACE_TARGET_SERVER: Addr := 0x0808_0808

  /** Failed tries at one hop count before the next hop count is tried. */
  const MAX_TRIES: nat := 4
  /** The history is cut when it reaches SAMPLES_MAX, by SAMPLES_DROPPED of its oldest samples. */
  const SAMPLES_MAX: nat := 4096
  const SAMPLES_DROPPED: nat := 2048
  /** The loss is counted over the newest LOSS_WINDOW samples. */
  const LOSS_WINDOW: nat := 30

  /** What the tick functions return, relative to now. */
  const FIRST_PUBLIC_PERIOD_MS: nat := 1000
  const NUMBER_OF_HOPS_PERIOD_MS: nat := 500
  const PENDING_RECHECK_MS: nat := 1000

  /** The worker subtracts the call overhead but reports no less than a microsecond. */
  const CALL_OVERHEAD_NS: nat := 200_000
  const MIN_ROUNDTRIP_NS: nat := 1000

  function MinNat(a: nat, b: nat): nat { if a <= b then a else b }
  function MaxNat(a: nat, b: nat): nat { if a >= b then a else b }

  /** ++ on a std::uint8_t: 255 wraps to 0. */
  function Inc8(x: nat): (y: nat)
    requires x < 256
    ensures y < 256
    ensures x < 255 ==> y == x + 1
    ensures x == 255 ==> y == 0
  {
    (x + 1) % 256
  }

  // ---------------------------------------------------------------------------
  // Samples and echo results

  /** PingSample without the window mean and jitter, which are not modelled. */
  datatype PingSample = PingSample(errorCode: nat, sentTime: int, roundtripTime: real, lossPercentage: real)

  /** IcmpPingResult without its status text. */
  datatype IcmpPingResult = IcmpPingResult(
    errorCode: nat,
    statusCode: nat,
    sentTime: int,
    roundtripTime: int,
    responder: Addr)

  /** An entry of _pendingRequests: where the echo went, with which TTL, and its result once ready. */
  datatype Request = Request(host: Addr, ttl: nat, result: Option<IcmpPingResult>)

  /** The tick function _tick points at. */
  datatype Phase = SearchingPublicNode | CountingHops | Pinging

  /**
   * The result the worker of asyncIcmpPing returns: the round trip is the
   * measured time less the call overhead, but never below a microsecond.
   */
  function AsyncPingResult(sentTime: int, receiveTime: int, errorCode: nat, status: nat, address: Addr): (r: IcmpPingResult)
    ensures r.errorCode == errorCode && r.statusCode == status && r.responder == address && r.sentTime == sentTime
    ensures r.roundtripTime >= MIN_ROUNDTRIP_NS && r.roundtripTime >= receiveTime - sentTime - CALL_OVERHEAD_NS
    ensures r.roundtripTime == MIN_ROUNDTRIP_NS || r.roundtripTime == receiveTime - sentTime - CALL_OVERHEAD_NS
  {
    var measured := receiveTime - sentTime - CALL_OVERHEAD_NS;
    IcmpPingResult(errorCode, status, sentTime, if measured >= MIN_ROUNDTRIP_NS then measured else MIN_ROUNDTRIP_NS, address)
  }

  // ---------------------------------------------------------------------------
  // Sorted insertion

  predicate SamplesSorted(s: seq<PingSample>) {
    forall i, j | 0 <= i < j < |s| :: s[i].sentTime <= s[j].sentTime
  }

  /**
   * The position std::upper_bound finds: the first sample sent after t. It is
   * PingData.UpperBound over samples instead of echo results (the two keep
   * their own element types, so the definition is repeated per type).
   */
  function SampleUpperBound(s: seq<PingSample>, t: int): (i: nat)
    ensures i <= |s|
  {
    if |s| == 0 || s[0].sentTime > t then 0 else 1 + SampleUpperBound(s[1..], t)
  }

  /** Every sample before i was sent no later than t, every one from i on later. */
  predicate SplitsAt(s: seq<PingSample>, t: int, i: nat) {
    i <= |s|
    && (forall j | 0 <= j < i :: s[j].sentTime <= t)
    && (forall j | i <= j < |s| :: s[j].sentTime > t)
  }

  lemma {:induction false} UpperBoundSplitsSorted(s: seq<PingSample>, t: int)
    requires SamplesSorted(s)
    ensures SplitsAt(s, t, SampleUpperBound(s, t))
  {
    if |s| > 0 && s[0].sentTime <= t {
      UpperBoundSplitsSorted(s[1..], t);
      var i := SampleUpperBound(s, t);
      forall j | 1 <= j < i ensures s[j].sentTime <= t {
        assert s[j] == s[1..][j - 1];
      }
      forall j | i <= j < |s| ensures s[j].sentTime > t {
        assert s[j] == s[1..][j - 1];
      }
    }
  }

  /** A sorted history splits at only one position. */
  lemma SplitIsUnique(s: seq<PingSample>, t: int, i: nat, k: nat)
    requires SplitsAt(s, t, i) && SplitsAt(s, t, k)
    ensures i == k
  {
    assert i < |s| ==> s[i].sentTime > t;
    assert k < |s| ==> s[k].sentTime > t;
  }

  /** std::upper_bound over _samples by sentTime: a binary search. */
  method UpperBoundSearch(s: seq<PingSample>, t: int) returns (i: nat)
    requires SamplesSorted(s)
    ensures i == SampleUpperBound(s, t)
  {
    var lo, hi := 0, |s|;
    while lo < hi
      invariant 0 <= lo <= hi <= |s|
      invariant forall j | 0 <= j < lo :: s[j].sentTime <= t
      invariant forall j | hi <= j < |s| :: s[j].sentTime > t
      decreases hi - lo
    {
      var mid := lo + (hi - lo) / 2;
      if s[mid].sentTime <= t {
        lo := mid + 1;
      } else {
        hi := mid;
      }
    }
    UpperBoundSplitsSorted(s, t);
    SplitIsUnique(s, t, lo, SampleUpperBound(s, t));
    i := lo;
  }

  /** vector::insert at the upper bound of the sample's send time: x goes after every sample sent no later. */
  function InsertSample(s: seq<PingSample>, x: PingSample): (s': seq<PingSample>)
    ensures |s'| == |s| + 1
  {
    if |s| == 0 || s[0].sentTime > x.sentTime then [x] + s else [s[0]] + InsertSample(s[1..], x)
  }

  /** The insert splices x in at the upper bound. */
  lemma {:induction false} InsertSampleIsSplice(s: seq<PingSample>, x: PingSample)
    ensures var i := SampleUpperBound(s, x.sentTime); InsertSample(s, x) == s[..i] + [x] + s[i..]
  {
    var i := SampleUpperBound(s, x.sentTime);
    if |s| == 0 || s[0].sentTime > x.sentTime {
      assert s[..i] == [] && s[i..] == s;
    } else {
      InsertSampleIsSplice(s[1..], x);
      assert s[1..][..i - 1] == s[1..i] && s[1..][i - 1..] == s[i..];
      assert s[..i] == [s[0]] + s[1..i];
    }
  }

  /**
   * The insert keeps the history sorted, adds exactly the new sample, and
   * places it after every sample sent at the same time.
   */
  lemma InsertSampleSorted(s: seq<PingSample>, x: PingSample)
    requires SamplesSorted(s)
    ensures var i, s' := SampleUpperBound(s, x.sentTime), InsertSample(s, x);
      SamplesSorted(s') && |s'| == |s| + 1 && s'[i] == x
      && multiset(s') == multiset(s) + multiset{x}
      && (forall j | 0 <= j < i :: s'[j].sentTime <= x.sentTime)
      && (forall j | i < j < |s'| :: s'[j].sentTime > x.sentTime)
  {
    var i := SampleUpperBound(s, x.sentTime);
    InsertSampleIsSplice(s, x);
    UpperBoundSplitsSorted(s, x.sentTime);
    SpliceAtSplitSorted(s, x, i);
    assert s == s[..i] + s[i..];
  }

  /** Splicing x in where the history splits at its send time. */
  lemma SpliceAtSplitSorted(s: seq<PingSample>, x: PingSample, i: nat)
    requires SamplesSorted(s) && SplitsAt(s, x.sentTime, i)
    ensures var s' := s[..i] + [x] + s[i..];
      SamplesSorted(s') && |s'| == |s| + 1 && s'[i] == x
      && (forall j | 0 <= j < i :: s'[j].sentTime <= x.sentTime)
      && (forall j | i < j < |s'| :: s'[j].sentTime > x.sentTime)
  {
    var s' := s[..i] + [x] + s[i..];
    assert forall j | 0 <= j < i :: s'[j] == s[j];
    assert forall j | i < j < |s'| :: s'[j] == s[j - 1];
    forall a, b | 0 <= a < b < |s'|
      ensures s'[a].sentTime <= s'[b].sentTime
    {
      if a < i && b < i {
        assert s[a].sentTime <= s[b].sentTime;
      } else if a > i {
        assert s[a - 1].sentTime <= s[b - 1].sentTime;
      }
    }
  }

  // ---------------------------------------------------------------------------
  // forReverseRange and the loss over the newest samples

  /** The indices forReverseRange hands its body: exclusiveStart - 1 downwards, at most nElements of them. */
  function ReverseRange(exclusiveStart: nat, nElements: nat): seq<nat>
    decreases nElements
  {
    if exclusiveStart == 0 || nElements == 0 then []
    else [exclusiveStart - 1] + ReverseRange(exclusiveStart - 1, nElements - 1)
  }

  /**
   * min(exclusiveStart, nElements) indices, counting down from
   * exclusiveStart - 1 to max(exclusiveStart, nElements) - nElements:
   * distinct, in descending order, all below exclusiveStart.
   */
  lemma {:induction false} ReverseRangeShape(exclusiveStart: nat, nElements: nat)
    ensures var r := ReverseRange(exclusiveStart, nElements);
      |r| == MinNat(exclusiveStart, nElements)
      && (forall k | 0 <= k < |r| :: r[k] == exclusiveStart - 1 - k)
      && (|r| > 0 ==> r[|r| - 1] == MaxNat(exclusiveStart, nElements) - nElements)
    decreases nElements
  {
    if exclusiveStart > 0 && nElements > 0 {
      ReverseRangeShape(exclusiveStart - 1, nElements - 1);
      var r := ReverseRange(exclusiveStart, nElements);
      forall k | 1 <= k < |r| ensures r[k] == exclusiveStart - 1 - k {
        assert r[k] == ReverseRange(exclusiveStart - 1, nElements - 1)[k - 1];
      }
    }
  }

  /** The state a body threads through the indices it is handed, in order. */
  function Fold<S>(body: (S, nat) -> S, init: S, indices: seq<nat>): S
    decreases |indices|
  {
    if indices == [] then init else body(Fold(body, init, indices[..|indices| - 1]), indices[|indices| - 1])
  }

  /** forReverseRange: calls body on exclusiveStart - 1 down to max(exclusiveStart, nElements) - nElements. */
  method ForReverseRange<S>(exclusiveStart: nat, nElements: nat, body: (S, nat) -> S, init: S) returns (acc: S)
    ensures acc == Fold(body, init, ReverseRange(exclusiveStart, nElements))
  {
    ReverseRangeShape(exclusiveStart, nElements);
    ghost var indices := ReverseRange(exclusiveStart, nElements);
    var inclusiveEnd := MaxNat(exclusiveStart, nElements) - nElements;
    acc := init;
    var i := exclusiveStart;
    while i > inclusiveEnd
      invariant inclusiveEnd <= i <= exclusiveStart
      invariant acc == Fold(body, init, indices[..exclusiveStart - i])
    {
      i := i - 1;
      assert indices[..exclusiveStart - i][..exclusiveStart - i - 1] == indices[..exclusiveStart - i - 1];
      acc := body(acc, i);
    }
    assert indices[..exclusiveStart - i] == indices;
  }

  function Lost(x: PingSample): nat { if x.errorCode != 0 then 1 else 0 }

  /** How many of the samples were lost. */
  function LostCount(s: seq<PingSample>): (n: nat)
    ensures n <= |s|
  {
    if s == [] then 0 else Lost(s[0]) + LostCount(s[1..])
  }

  /** The newest LOSS_WINDOW samples, or all of them when there are fewer. */
  function LossWindow(s: seq<PingSample>): seq<PingSample> {
    s[|s| - MinNat(|s|, LOSS_WINDOW)..]
  }

  /** 100.0 * part / whole, as the double arithmetic of the source computes it. */
  function Percentage(part: nat, whole: nat): (p: real)
    requires part <= whole && whole >= 1
    ensures 0.0 <= p <= 100.0
  {
    ShareIsPercentage(part as real, whole as real);
    100.0 * part as real / whole as real
  }

  lemma ShareIsPercentage(part: real, whole: real)
    requires 0.0 <= part <= whole && whole > 0.0
    ensures 0.0 <= 100.0 * part / whole <= 100.0
  {
    var q := 100.0 * part / whole;
    assert q * whole == 100.0 * part;
    assert (q - 100.0) * whole == 100.0 * (part - whole);
  }

  /** The loss the sample just inserted records: the lost share of the window, in percent. */
  function LossPercentage(s: seq<PingSample>): (p: real)
    requires |s| >= 1
    ensures 0.0 <= p <= 100.0
  {
    Percentage(LostCount(LossWindow(s)), |LossWindow(s)|)
  }

  /** The two counters of the loss count. */
  datatype LossCounts = LossCounts(nSamples: nat, nLostPackets: nat)

  /** The body of the loss count: one more sample considered, and one more lost if it was. */
  function CountLoss(s: seq<PingSample>): (LossCounts, nat) -> LossCounts {
    (c: LossCounts, i: nat) => LossCounts(c.nSamples + 1, c.nLostPackets + (if i < |s| then Lost(s[i]) else 0))
  }

  /** The loss count over forReverseRange(size, 30) considers the whole window and counts its lost samples. */
  lemma LossCountCoversWindow(s: seq<PingSample>)
    ensures Fold(CountLoss(s), LossCounts(0, 0), ReverseRange(|s|, LOSS_WINDOW)) == LossCounts(|LossWindow(s)|, LostCount(LossWindow(s)))
  {
    ReverseRangeShape(|s|, LOSS_WINDOW);
    var r := ReverseRange(|s|, LOSS_WINDOW);
    LossCountPrefix(s, r, |r|);
    assert r[..|r|] == r;
  }

  /** Counting down from the newest sample, the first m steps cover the newest m samples. */
  lemma {:induction false} LossCountPrefix(s: seq<PingSample>, r: seq<nat>, m: nat)
    requires m <= |s| && m <= |r|
    requires forall k | 0 <= k < m :: r[k] == |s| - 1 - k
    ensures Fold(CountLoss(s), LossCounts(0, 0), r[..m]) == LossCounts(m, LostCount(s[|s| - m..]))
  {
    if m == 0 {
      assert r[..0] == [];
      assert s[|s|..] == [];
    } else {
      LossCountPrefix(s, r, m - 1);
      assert r[..m][..m - 1] == r[..m - 1];
      assert s[|s| - m..][1..] == s[|s| - m + 1..];
    }
  }

  /** Drops the oldest SAMPLES_DROPPED samples once the history reaches SAMPLES_MAX. */
  function DropOldest(s: seq<PingSample>): seq<PingSample> {
    if |s| >= SAMPLES_MAX then s[SAMPLES_DROPPED..] else s
  }

  /**
   * processPingResult on the history: insert the sample, give it its round
   * trip and the loss over the newest samples, then cut the history.
   */
  function AddSample(s: seq<PingSample>, r: IcmpPingResult): seq<PingSample> {
    var i := SampleUpperBound(s, r.sentTime);
    var inserted := InsertSample(s, PingSample(r.errorCode, r.sentTime, 0.0, 0.0));
    var timed := inserted[i := inserted[i].(roundtripTime := PingData.Milliseconds(r.roundtripTime))];
    DropOldest(timed[i := timed[i].(lossPercentage := LossPercentage(timed))])
  }

  /**
   * A sorted history below SAMPLES_MAX stays so; it grows by the one
   * sample unless it reached SAMPLES_MAX, when its oldest SAMPLES_DROPPED
   * samples go; and the loss recorded with the sample is a percentage.
   */
  lemma AddSampleKeepsHistory(s: seq<PingSample>, r: IcmpPingResult)
    requires SamplesSorted(s) && |s| < SAMPLES_MAX
    ensures var s' := AddSample(s, r);
      SamplesSorted(s') && |s'| < SAMPLES_MAX
      && |s'| == (if |s| + 1 == SAMPLES_MAX then |s| + 1 - SAMPLES_DROPPED else |s| + 1)
      && (|s| + 1 < SAMPLES_MAX ==> var x := s'[SampleUpperBound(s, r.sentTime)];
            x.errorCode == r.errorCode && x.sentTime == r.sentTime && 0.0 <= x.lossPercentage <= 100.0)
  {
    var x := PingSample(r.errorCode, r.sentTime, 0.0, 0.0);
    InsertSampleSorted(s, x);
    var i := SampleUpperBound(s, r.sentTime);
    var inserted := InsertSample(s, x);
    var timed := inserted[i := inserted[i].(roundtripTime := PingData.Milliseconds(r.roundtripTime))];
    var filled := timed[i := timed[i].(lossPercentage := LossPercentage(timed))];
    assert forall j | 0 <= j < |filled| :: filled[j].sentTime == inserted[j].sentTime;
    assert SamplesSorted(filled);
    if |filled| >= SAMPLES_MAX {
      assert forall j | 0 <= j < |filled| - SAMPLES_DROPPED :: filled[SAMPLES_DROPPED..][j] == filled[j + SAMPLES_DROPPED];
    }
  }

  /** The back of the pending requests has its result. */
  predicate BackReady(p: seq<Request>) {
    |p| > 0 && p[|p| - 1].result.Some?
  }

  /** The requests and the history the drain loop of ping leaves. */
  datatype Drain = Drain(pending: seq<Request>, samples: seq<PingSample>)

  /** Pop the back request while it is ready, and process its result into the history. */
  function DrainFrom(p: seq<Request>, s: seq<PingSample>): Drain
    decreases |p|
  {
    if BackReady(p) then DrainFrom(p[..|p| - 1], AddSample(s, p[|p| - 1].result.value)) else Drain(p, s)
  }

  /**
   * The drain loop stops at the first request from the back that is not
   * ready: what is left is a prefix, and everything it took was ready.
   */
  lemma {:induction false} DrainTakesReadyTail(p: seq<Request>, s: seq<PingSample>)
    ensures var d := DrainFrom(p, s).pending;
      !BackReady(d) && |d| <= |p| && d == p[..|d|]
      && (forall k | |d| <= k < |p| :: p[k].result.Some?)
    decreases |p|
  {
    if BackReady(p) {
      var q := p[..|p| - 1];
      var s' := AddSample(s, p[|p| - 1].result.value);
      DrainTakesReadyTail(q, s');
      var d := DrainFrom(q, s').pending;
      assert d == q[..|d|] == p[..|d|];
      forall k | |d| <= k < |p| ensures p[k].result.Some? {
        if k < |q| {
          assert p[k] == q[k];
        }
      }
    } else {
      assert p[..|p|] == p;
    }
  }

  /** The drain keeps the history sorted and below SAMPLES_MAX. */
  lemma {:induction false} DrainKeepsHistory(p: seq<Request>, s: seq<PingSample>)
    requires SamplesSorted(s) && |s| < SAMPLES_MAX
    ensures SamplesSorted(DrainFrom(p, s).samples) && |DrainFrom(p, s).samples| < SAMPLES_MAX
    decreases |p|
  {
    if BackReady(p) {
      AddSampleKeepsHistory(s, p[|p| - 1].result.value);
      DrainKeepsHistory(p[..|p| - 1], AddSample(s, p[|p| - 1].result.value));
    }
  }

  // ---------------------------------------------------------------------------
  // The ping phase

  /** The fields the ping phase changes. */
  datatype PingState = PingState(pending: seq<Request>, samples: seq<PingSample>, lastPingReceived: int, lastPingSent: int)

  /**
   * Whether ping sends a new request: asynchronously once the delay since
   * the last send is over, however many are pending; synchronously only
   * when none is pending and the delay since the last reply is over.
   */
  predicate SendsPing(async: bool, delayMs: nat, now: int, lastPingSent: int, lastPingReceived: int, pending: seq<Request>) {
    if async then now >= lastPingSent + delayMs * NS_PER_MS
    else pending == [] && now >= lastPingReceived + delayMs * NS_PER_MS
  }

  /** The drain loop of ping: the requests and history it leaves, and the time of the last reply. */
  function AfterDrain(now: int, st: PingState): PingState {
    var drain := DrainFrom(st.pending, st.samples);
    PingState(drain.pending, drain.samples, if BackReady(st.pending) then now else st.lastPingReceived, st.lastPingSent)
  }

  /** The send of ping: a new request to the host with the current hop count, when SendsPing says so. */
  function AfterSend(async: bool, delayMs: nat, host: Addr, hops: nat, now: int, st: PingState): PingState {
    if SendsPing(async, delayMs, now, st.lastPingSent, st.lastPingReceived, st.pending)
    then st.(pending := st.pending + [Request(host, hops, None)], lastPingSent := now)
    else st
  }

  /** When ping wants the next tick. */
  function NextPingTick(async: bool, delayMs: nat, now: int, st: PingState): int {
    if async then st.lastPingSent + delayMs * NS_PER_MS
    else if st.pending == [] then st.lastPingReceived + delayMs * NS_PER_MS
    else now + PENDING_RECHECK_MS * NS_PER_MS
  }

  /** One call of ping: drain the ready results, maybe send, and the time of the next tick. */
  function PingStep(async: bool, delayMs: nat, host: Addr, hops: nat, now: int, st: PingState): (PingState, int) {
    var st' := AfterSend(async, delayMs, host, hops, now, AfterDrain(now, st));
    (st', NextPingTick(async, delayMs, now, st'))
  }

  /** In the synchronous mode at most one request is ever in flight. */
  lemma SyncKeepsOneInFlight(delayMs: nat, host: Addr, hops: nat, now: int, st: PingState)
    requires |st.pending| <= 1
    ensures |PingStep(false, delayMs, host, hops, now, st).0.pending| <= 1
  {
    DrainTakesReadyTail(st.pending, st.samples);
  }

  /** The next tick is in the future, unless an asynchronous monitor has no delay. */
  lemma NextTickIsLater(async: bool, delayMs: nat, host: Addr, hops: nat, now: int, st: PingState)
    requires !async || delayMs > 0
    ensures PingStep(async, delayMs, host, hops, now, st).1 > now
  {
  }

  /** ping keeps the history sorted and below SAMPLES_MAX. */
  lemma PingKeepsHistory(async: bool, delayMs: nat, host: Addr, hops: nat, now: int, st: PingState)
    requires SamplesSorted(st.samples) && |st.samples| < SAMPLES_MAX
    ensures var s := PingStep(async, delayMs, host, hops, now, st).0.samples;
      SamplesSorted(s) && |s| < SAMPLES_MAX
  {
    DrainKeepsHistory(st.pending, st.samples);
  }

  // ---------------------------------------------------------------------------
  // The discovery phases

  /** A failed try: the fourth in a row moves on to the next hop count, with uint8 wrap-around. */
  function AfterFailure(hops: nat, tries: nat): (r: (nat, nat))
    requires hops < 256 && tries < MAX_TRIES
    ensures r.0 < 256 && r.1 < MAX_TRIES
  {
    if tries + 1 == MAX_TRIES then (Inc8(hops), 0) else (hops, tries + 1)
  }

  /** The hop count and tries after k failures in a row. */
  function Failures(hops: nat, tries: nat, k: nat): (r: (nat, nat))
    requires hops < 256 && tries < MAX_TRIES
    ensures r.0 < 256 && r.1 < MAX_TRIES
  {
    if k == 0 then (hops, tries) else var r := Failures(hops, tries, k - 1); AfterFailure(r.0, r.1)
  }

  /** From a fresh hop count, k failures move on k / 4 hop counts (modulo 256) and leave k % 4 tries. */
  lemma {:induction false} FailuresAdvanceHops(hops: nat, k: nat)
    requires hops < 256
    ensures Failures(hops, 0, k) == ((hops + k / MAX_TRIES) % 256, k % MAX_TRIES)
  {
    if k > 0 {
      FailuresAdvanceHops(hops, k - 1);
      var h := (hops + (k - 1) / MAX_TRIES) % 256;
      if (k - 1) % MAX_TRIES + 1 == MAX_TRIES {
        assert k / MAX_TRIES == (k - 1) / MAX_TRIES + 1 && k % MAX_TRIES == 0;
        assert (h + 1) % 256 == (hops + k / MAX_TRIES) % 256;
      } else {
        assert k / MAX_TRIES == (k - 1) / MAX_TRIES && k % MAX_TRIES == (k - 1) % MAX_TRIES + 1;
      }
    }
  }

  /** A discovery phase sends a probe only when nothing is pending. */
  function WithProbe(p: seq<Request>, host: Addr, hops: nat): (p': seq<Request>)
    ensures p == [] ==> p' == [Request(host, hops, None)]
    ensures p != [] ==> p' == p
  {
    if p == [] then [Request(host, hops, None)] else p
  }

  // ---------------------------------------------------------------------------
  // The monitor

  /** The mutable fields of a monitor, so that "only these change" is one equality. */
  datatype MonitorState = MonitorState(host: Addr, hops: nat, tries: nat, tick: Phase, pending: seq<Request>,
                                       samples: seq<PingSample>, lastPingReceived: int, lastPingSent: int)

  class PingMonitor {
    var host: Addr
    var hops: nat
    var tries: nat
    const delayMs: nat
    const timeoutMs: nat
    const async: bool
    var lastPingReceived: int
    var lastPingSent: int
    var tick: Phase
    var pendingRequests: seq<Request>
    var samples: seq<PingSample>

    /** What every operation keeps: uint8 counters, fewer than four tries, a sorted history below SAMPLES_MAX. */
    ghost predicate Valid()
      reads this
    {
      hops < 256 && tries < MAX_TRIES && |samples| < SAMPLES_MAX && SamplesSorted(samples)
    }

    function PingView(): PingState
      reads this
    {
      PingState(pendingRequests, samples, lastPingReceived, lastPingSent)
    }

    /** Every field a tick may change, as one value. */
    function State(): MonitorState
      reads this
    {
      MonitorState(host, hops, tries, tick, pendingRequests, samples, lastPingReceived, lastPingSent)
    }

    /**
     * "auto4" and "auto6" search for the first public node; any other name
     * is the host (hostAddr is what inet_addr made of it) and the monitor
     * counts the hops to it.
     */
    constructor (hostname: string, hostAddr: Addr, delayMs: nat, timeoutMs: nat, async: bool, now: int)
      ensures Valid()
      ensures this.delayMs == delayMs && this.timeoutMs == timeoutMs && this.async == async
      ensures hostname == "auto4" || hostname == "auto6" ==> tick == SearchingPublicNode && host == INADDR_ANY
      ensures hostname != "auto4" && hostname != "auto6" ==> tick == CountingHops && host == hostAddr
      ensures hops == 0 && tries == 0 && pendingRequests == [] && samples == []
      ensures lastPingReceived == now - delayMs * NS_PER_MS && lastPingSent == now - delayMs * NS_PER_MS
    {
      this.delayMs, this.timeoutMs, this.async := delayMs, timeoutMs, async;
      hops, tries := 0, 0;
      pendingRequests, samples := [], [];
      lastPingReceived := now - delayMs * NS_PER_MS;
      lastPingSent := now - delayMs * NS_PER_MS;
      host := INADDR_ANY;
      if hostname == "auto4" {
        tick := SearchingPublicNode;
      } else if hostname == "auto6" {
        tick := SearchingPublicNode;
      } else {
        host := hostAddr;
        tick := CountingHops;
      }
    }

    /** The worker of request k finishing: its result becomes ready. */
    method Complete(k: nat, sentTime: int, receiveTime: int, errorCode: nat, status: nat, address: Addr)
      requires k < |pendingRequests| && pendingRequests[k].result.None?
      modifies this`pendingRequests
      ensures pendingRequests == old(pendingRequests)[k := old(pendingRequests)[k].(
                result := Some(AsyncPingResult(sentTime, receiveTime, errorCode, status, address)))]
    {
      pendingRequests := pendingRequests[k := pendingRequests[k].(
        result := Some(AsyncPingResult(sentTime, receiveTime, errorCode, status, address)))];
    }

    /** tick: run the tick function of the current phase. Once pinging, the monitor keeps pinging the same host. */
    method Tick(now: int) returns (next: int)
      requires Valid()
      modifies this
      ensures Valid()
      ensures old(tick) == Pinging ==>
        tick == Pinging && host == old(host) && hops == old(hops) && tries == old(tries)
        && (PingView(), next) == PingStep(async, delayMs, host, hops, now, old(PingView()))
      ensures tick != old(tick) ==> tick == Pinging && tries == 0 && hops == old(hops)
      ensures old(tick) == CountingHops && tick == Pinging ==> host == old(host)
    {
      match tick
      case SearchingPublicNode => next := FindFirstPublicNode(now);
      case CountingHops => next := FindNumberOfHops(now);
      case Pinging => next := Ping(now);
    }

    /**
     * findFirstPublicNode: take a ready result, if any. A reply from the
     * target itself settles the host and pings it at once; a TTL expiry at
     * a public router re-probes that router with the same TTL; any other
     * reply moves on to the next hop count; the fourth failure in a row
     * does too. Then probe 8.8.8.8 if nothing is pending.
     */
    method FindFirstPublicNode(now: int) returns (next: int)
      requires Valid()
      modifies this
      ensures Valid()
      ensures !BackReady(old(pendingRequests)) ==>
        State() == old(State()).(pending := WithProbe(old(pendingRequests), TRACE_TARGET_SERVER, old(hops)))
        && next == now + FIRST_PUBLIC_PERIOD_MS * NS_PER_MS
      ensures BackReady(old(pendingRequests)) ==>
        var r, rest := old(pendingRequests)[|old(pendingRequests)| - 1].result.value,
                       old(pendingRequests)[..|old(pendingRequests)| - 1];
        if r.errorCode != 0 then
          var f := AfterFailure(old(hops), old(tries));
          State() == old(State()).(hops := f.0, tries := f.1, pending := WithProbe(rest, TRACE_TARGET_SERVER, f.0))
          && next == now + FIRST_PUBLIC_PERIOD_MS * NS_PER_MS
        else if r.statusCode == IP_SUCCESS then
          tries == 0 && hops == old(hops) && host == r.responder && tick == Pinging
          && (PingView(), next) == PingStep(async, delayMs, host, hops, now,
                                            PingState(rest, old(samples), old(lastPingReceived), old(lastPingSent)))
        else if IsPublicAddress(r.responder) && r.statusCode == IP_TTL_EXPIRED_TRANSIT then
          State() == old(State()).(tries := 0, pending := rest + [Request(r.responder, old(hops), None)])
          && next == now + FIRST_PUBLIC_PERIOD_MS * NS_PER_MS
        else
          var h := Inc8(old(hops));
          State() == old(State()).(hops := h, tries := 0, pending := WithProbe(rest, TRACE_TARGET_SERVER, h))
          && next == now + FIRST_PUBLIC_PERIOD_MS * NS_PER_MS
    {
      if BackReady(pendingRequests) {
        var r := pendingRequests[|pendingRequests| - 1].result.value;
        pendingRequests := pendingRequests[..|pendingRequests| - 1];
        if r.errorCode == 0 {
          tries := 0;
          if r.statusCode == IP_SUCCESS {
            host := r.responder;
            tick := Pinging;
            next := Ping(now);
            return;
          } else if IsPublicAddress(r.responder) && r.statusCode == IP_TTL_EXPIRED_TRANSIT {
            pendingRequests := pendingRequests + [Request(r.responder, hops, None)];
          } else {
            hops := Inc8(hops);
          }
        } else {
          hops, tries := AfterFailure(hops, tries).0, AfterFailure(hops, tries).1;
        }
      }
      pendingRequests := WithProbe(pendingRequests, TRACE_TARGET_SERVER, hops);
      next := now + FIRST_PUBLIC_PERIOD_MS * NS_PER_MS;
    }

    /**
     * findNumberOfHops: take a ready result, if any. A reply from the host
     * itself starts pinging it at once; a TTL expiry moves on to the next
     * hop count and any other reply keeps it; the fourth failure in a row
     * moves on too. Then probe the host if nothing is pending.
     */
    method FindNumberOfHops(now: int) returns (next: int)
      requires Valid()
      modifies this
      ensures Valid()
      ensures !BackReady(old(pendingRequests)) ==>
        State() == old(State()).(pending := WithProbe(old(pendingRequests), old(host), old(hops)))
        && next == now + NUMBER_OF_HOPS_PERIOD_MS * NS_PER_MS
      ensures BackReady(old(pendingRequests)) ==>
        var r, rest := old(pendingRequests)[|old(pendingRequests)| - 1].result.value,
                       old(pendingRequests)[..|old(pendingRequests)| - 1];
        if r.errorCode != 0 then
          var f := AfterFailure(old(hops), old(tries));
          State() == old(State()).(hops := f.0, tries := f.1, pending := WithProbe(rest, old(host), f.0))
          && next == now + NUMBER_OF_HOPS_PERIOD_MS * NS_PER_MS
        else if r.responder == old(host) && r.statusCode == IP_SUCCESS then
          host == old(host) && tries == 0 && hops == old(hops) && tick == Pinging
          && (PingView(), next) == PingStep(async, delayMs, host, hops, now,
                                            PingState(rest, old(samples), old(lastPingReceived), old(lastPingSent)))
        else
          var h := if r.statusCode == IP_TTL_EXPIRED_TRANSIT then Inc8(old(hops)) else old(hops);
          State() == old(State()).(hops := h, tries := 0, pending := WithProbe(rest, old(host), h))
          && next == now + NUMBER_OF_HOPS_PERIOD_MS * NS_PER_MS
    {
      if BackReady(pendingRequests) {
        var r := pendingRequests[|pendingRequests| - 1].result.value;
        pendingRequests := pendingRequests[..|pendingRequests| - 1];
        if r.errorCode == 0 {
          tries := 0;
          if r.responder == host && r.statusCode == IP_SUCCESS {
            host := r.responder;
            tick := Pinging;
            next := Ping(now);
            return;
          } else if r.statusCode == IP_TTL_EXPIRED_TRANSIT {
            hops := Inc8(hops);
          }
        } else {
          hops, tries := AfterFailure(hops, tries).0, AfterFailure(hops, tries).1;
        }
      }
      pendingRequests := WithProbe(pendingRequests, host, hops);
      next := now + NUMBER_OF_HOPS_PERIOD_MS * NS_PER_MS;
    }

    /**
     * ping: process every ready result from the back of the pending
     * requests, then send by the rule of the mode, and say when to tick next.
     */
    method Ping(now: int) returns (next: int)
      requires Valid()
      modifies this`pendingRequests, this`samples, this`lastPingReceived, this`lastPingSent
      ensures Valid()
      ensures (PingView(), next) == PingStep(async, delayMs, host, hops, now, old(PingView()))
    {
      DrainReady(now);
      SendIfDue(now);
      if async {
        next := lastPingSent + delayMs * NS_PER_MS;
      } else {
        next := if pendingRequests == [] then lastPingReceived + delayMs * NS_PER_MS
                else now + PENDING_RECHECK_MS * NS_PER_MS;
      }
    }

    /** The send of ping: by the rule of the mode, a new request to the host. */
    method SendIfDue(now: int)
      modifies this`pendingRequests, this`lastPingSent
      ensures PingView() == AfterSend(async, delayMs, host, hops, now, old(PingView()))
    {
      if async {
        if now >= lastPingSent + delayMs * NS_PER_MS {
          pendingRequests := pendingRequests + [Request(host, hops, None)];
          lastPingSent := now;
        }
      } else {
        if pendingRequests == [] && now >= lastPingReceived + delayMs * NS_PER_MS {
          pendingRequests := pendingRequests + [Request(host, hops, None)];
          lastPingSent := now;
        }
      }
    }

    /** The drain loop of ping: every ready result from the back, each processed as it is taken. */
    method DrainReady(now: int)
      requires Valid()
      modifies this`pendingRequests, this`samples, this`lastPingReceived
      ensures Valid()
      ensures PingView() == AfterDrain(now, old(PingView()))
    {
      ghost var pending0, samples0 := pendingRequests, samples;
      ghost var took := false;
      while BackReady(pendingRequests)
        invariant Valid()
        invariant DrainFrom(pendingRequests, samples) == DrainFrom(pending0, samples0)
        invariant !took ==> pendingRequests == pending0 && lastPingReceived == old(lastPingReceived)
        invariant took ==> BackReady(pending0) && lastPingReceived == now
        decreases |pendingRequests|
      {
        var r := pendingRequests[|pendingRequests| - 1].result.value;
        pendingRequests := pendingRequests[..|pendingRequests| - 1];
        lastPingReceived := now;
        ProcessPingResult(r);
        took := true;
      }
    }

    /**
     * processPingResult: insert the sample, set its round trip, count the
     * loss over the newest samples, and cut the history at SAMPLES_MAX.
     */
    method ProcessPingResult(r: IcmpPingResult)
      requires |samples| < SAMPLES_MAX && SamplesSorted(samples)
      modifies this`samples
      ensures samples == AddSample(old(samples), r)
      ensures |samples| < SAMPLES_MAX && SamplesSorted(samples)
    {
      AddSampleKeepsHistory(samples, r);
      var i := PushSampleSorted(PingSample(r.errorCode, r.sentTime, 0.0, 0.0));
      samples := samples[i := samples[i].(roundtripTime := PingData.Milliseconds(r.roundtripTime))];
      ghost var timed := samples;
      var counts := ForReverseRange(|samples|, LOSS_WINDOW, CountLoss(samples), LossCounts(0, 0));
      LossCountCoversWindow(samples);
      assert counts == LossCounts(|LossWindow(timed)|, LostCount(LossWindow(timed)));
      samples := samples[i := samples[i].(lossPercentage := Percentage(counts.nLostPackets, counts.nSamples))];
      if |samples| >= SAMPLES_MAX {
        samples := samples[SAMPLES_DROPPED..];
      }
    }

    /** pushSampleSorted: insert after every sample sent no later, and return the position. */
    method PushSampleSorted(sample: PingSample) returns (i: nat)
      requires SamplesSorted(samples)
      modifies this`samples
      ensures i == SampleUpperBound(old(samples), sample.sentTime)
      ensures samples == InsertSample(old(samples), sample)
      ensures i < |samples| && samples[i] == sample
    {
      InsertSampleSorted(samples, sample);
      InsertSampleIsSplice(samples, sample);
      i := UpperBoundSearch(samples, sample.sentTime);
      samples := samples[..i] + [sample] + samples[i..];
    }
  }
}
