/**
 * The probe history and running statistics of one monitored host
 * (PingData in ping_data.hpp): echo results kept sorted by send time,
 * trace results kept in arrival order, an exponentially weighted loss
 * estimate whose weight adapts while the history is short, and, on
 * success, the mean, the squared jitter and the vertical scale of the graph.
 *
 * The source computes in double precision; the model computes over `real`.
 * The square root of the jitter is a parameter `sqrt`.
 */
module PingData {
  import opened Wrappers
  import opened Icmp

  /** The defaults loadOrStore falls back to when the "stats" node lacks a key. */
  const DEFAULT_HISTORY_SIZE: nat := 2 * 3600
  const DEFAULT_MEAN_WEIGHT: real := 80.0
  const DEFAULT_JITTER_WEIGHT: real := 40.0
  const DEFAULT_LOSS_WEIGHT: real := 40.0

  /** The graph height the scale is chosen for. */
  const HEIGHT: real := 200.0

  // ---------------------------------------------------------------------------
  // Sorted insertion and compaction

  /** Non-decreasing in sentTime, stated on neighbours. */
  predicate SortedBySent(s: seq<IcmpEchoResult>) {
    |s| <= 1 || (s[0].sentTime <= s[1].sentTime && SortedBySent(s[1..]))
  }

  /** Non-decreasing in sentTime, stated on every pair. */
  predicate PairwiseSorted(s: seq<IcmpEchoResult>) {
    forall i, j | 0 <= i < j < |s| :: s[i].sentTime <= s[j].sentTime
  }

  /** The neighbour form and the pair form of sortedness agree. */
  lemma {:induction false} SortedIsPairwise(s: seq<IcmpEchoResult>)
    ensures SortedBySent(s) <==> PairwiseSorted(s)
  {
    if |s| > 1 {
      var t := s[1..];
      SortedIsPairwise(t);
      if SortedBySent(s) {
        forall i, j | 0 <= i < j < |s|
          ensures s[i].sentTime <= s[j].sentTime
        {
          if i == 0 {
            if j > 1 {
              assert t[0] == s[1] && t[j - 1] == s[j];
            }
          } else {
            assert t[i - 1] == s[i] && t[j - 1] == s[j];
          }
        }
      }
      if PairwiseSorted(s) {
        forall i, j | 0 <= i < j < |t|
          ensures t[i].sentTime <= t[j].sentTime
        {
          assert t[i] == s[i + 1] && t[j] == s[j + 1];
        }
      }
    }
  }

  /**
   * std::upper_bound with the comparator lhs.sentTime < rhs.sentTime: the
   * first position whose entry was sent strictly after t (|s| if none).
   */
  function UpperBound(s: seq<IcmpEchoResult>, t: int): (i: nat)
    ensures i <= |s|
  {
    if |s| == 0 || s[0].sentTime > t then 0 else 1 + UpperBound(s[1..], t)
  }

  /** Everything before the upper bound was sent no later than t, the entry at it later. */
  lemma {:induction false} UpperBoundSplits(s: seq<IcmpEchoResult>, t: int)
    ensures var i := UpperBound(s, t);
      (forall j | 0 <= j < i :: s[j].sentTime <= t) && (i < |s| ==> s[i].sentTime > t)
  {
    if |s| > 0 && s[0].sentTime <= t {
      UpperBoundSplits(s[1..], t);
      var i := UpperBound(s, t);
      forall j | 1 <= j < i ensures s[j].sentTime <= t {
        assert s[j] == s[1..][j - 1];
      }
      if i < |s| {
        assert s[i] == s[1..][i - 1];
      }
    }
  }

  /** vector::insert at the upper bound of r's send time. */
  function InsertSorted(s: seq<IcmpEchoResult>, r: IcmpEchoResult): seq<IcmpEchoResult> {
    var i := UpperBound(s, r.sentTime);
    s[..i] + [r] + s[i..]
  }

  /**
   * The compaction after an insert: once the vector holds 2*historySize
   * entries, its last historySize entries are copied to the front and the
   * vector is cut to that length.
   */
  function Compact<T>(s: seq<T>, historySize: nat): seq<T> {
    if |s| >= historySize * 2 then s[|s| - historySize..] else s
  }

  /**
   * On sorted input the result is sorted, holds exactly the old entries and r,
   * and r sits after every entry sent no later than it and before every
   * entry sent after it.
   */
  lemma InsertSortedKeepsOrder(s: seq<IcmpEchoResult>, r: IcmpEchoResult)
    requires SortedBySent(s)
    ensures var i, s' := UpperBound(s, r.sentTime), InsertSorted(s, r);
      |s'| == |s| + 1 && s'[i] == r
      && s'[..i] == s[..i] && s'[i + 1..] == s[i..]
      && (forall j | 0 <= j < i :: s[j].sentTime <= r.sentTime)
      && (forall j | i <= j < |s| :: s[j].sentTime > r.sentTime)
      && SortedBySent(s')
      && multiset(s') == multiset(s) + multiset{r}
  {
    var i := UpperBound(s, r.sentTime);
    UpperBoundSplits(s, r.sentTime);
    SpliceShape(s, i, r);
    SplicePermutes(s, i, r);
    SpliceSorted(s, r);
  }

  /** The insert places r at the upper bound and shifts the later entries by one. */
  lemma InsertSortedShape(s: seq<IcmpEchoResult>, r: IcmpEchoResult)
    ensures var i, s' := UpperBound(s, r.sentTime), InsertSorted(s, r);
      |s'| == |s| + 1 && s'[i] == r
      && s'[..i] == s[..i] && s'[i + 1..] == s[i..]
      && (forall j | 0 <= j < i :: s'[j] == s[j])
      && (forall j | i < j < |s'| :: s'[j] == s[j - 1])
  {
    SpliceShape(s, UpperBound(s, r.sentTime), r);
  }

  /** The insert adds r and keeps every other entry. */
  lemma InsertSortedPermutes(s: seq<IcmpEchoResult>, r: IcmpEchoResult)
    ensures multiset(InsertSorted(s, r)) == multiset(s) + multiset{r}
  {
    SplicePermutes(s, UpperBound(s, r.sentTime), r);
  }

  /** Where the entries of s[..i] + [r] + s[i..] come from. */
  lemma SpliceShape(s: seq<IcmpEchoResult>, i: nat, r: IcmpEchoResult)
    requires i <= |s|
    ensures var s' := s[..i] + [r] + s[i..];
      |s'| == |s| + 1 && s'[i] == r
      && s'[..i] == s[..i] && s'[i + 1..] == s[i..]
      && (forall j | 0 <= j < i :: s'[j] == s[j])
      && (forall j | i < j < |s'| :: s'[j] == s[j - 1])
  {
    var s' := s[..i] + [r] + s[i..];
    assert s'[..i] == s[..i];
    assert s'[i + 1..] == s[i..];
  }

  lemma SplicePermutes(s: seq<IcmpEchoResult>, i: nat, r: IcmpEchoResult)
    requires i <= |s|
    ensures multiset(s[..i] + [r] + s[i..]) == multiset(s) + multiset{r}
  {
    assert s == s[..i] + s[i..];
  }

  /** Splicing r in at its upper bound keeps a sorted vector sorted. */
  lemma SpliceSorted(s: seq<IcmpEchoResult>, r: IcmpEchoResult)
    requires SortedBySent(s)
    ensures var i := UpperBound(s, r.sentTime);
      (forall j | i <= j < |s| :: s[j].sentTime > r.sentTime)
      && SortedBySent(s[..i] + [r] + s[i..])
  {
    var i := UpperBound(s, r.sentTime);
    var s' := s[..i] + [r] + s[i..];
    SpliceShape(s, i, r);
    UpperBoundSplits(s, r.sentTime);
    SortedIsPairwise(s);
    forall j | i <= j < |s|
      ensures s[j].sentTime > r.sentTime
    {
      if j > i {
        assert s[i].sentTime <= s[j].sentTime;
      }
    }
    forall a, b | 0 <= a < b < |s'|
      ensures s'[a].sentTime <= s'[b].sentTime
    {
      if a < i && b < i {
        assert s[a].sentTime <= s[b].sentTime;
      } else if a < i && b > i {
        assert s[a].sentTime <= s[b - 1].sentTime;
      } else if a > i {
        assert s[a - 1].sentTime <= s[b - 1].sentTime;
      }
    }
    SortedIsPairwise(s');
  }

  /**
   * Compaction keeps exactly the last historySize entries, in order, once the
   * size reaches twice that; so a vector that stays under 2*historySize
   * before a one-entry growth stays under it after the compaction.
   */
  lemma CompactKeepsNewest<T>(s: seq<T>, historySize: nat)
    ensures |s| >= 2 * historySize ==> Compact(s, historySize) == s[|s| - historySize..]
    ensures |s| < 2 * historySize ==> Compact(s, historySize) == s
    ensures historySize > 0 && |s| <= 2 * historySize ==> |Compact(s, historySize)| < 2 * historySize
    ensures forall j | 0 <= j < |Compact(s, historySize)| ::
      Compact(s, historySize)[j] == s[|s| - |Compact(s, historySize)| + j]
  {
  }

  /** A suffix of a sorted vector is sorted. */
  lemma SuffixSorted(s: seq<IcmpEchoResult>, k: nat)
    requires SortedBySent(s) && k <= |s|
    ensures SortedBySent(s[k..])
  {
    SortedIsPairwise(s);
    forall a, b | 0 <= a < b < |s[k..]|
      ensures s[k..][a].sentTime <= s[k..][b].sentTime
    {
      assert s[k..][a] == s[k + a] && s[k..][b] == s[k + b];
    }
    SortedIsPairwise(s[k..]);
  }

  /** The two facts the insert needs from InsertSortedKeepsOrder. */
  lemma InsertedIsSorted(s: seq<IcmpEchoResult>, r: IcmpEchoResult)
    requires SortedBySent(s)
    ensures SortedBySent(InsertSorted(s, r)) && |InsertSorted(s, r)| == |s| + 1
  {
    InsertSortedKeepsOrder(s, r);
  }

  /** Compacting a non-empty sorted vector of at most 2*historySize entries. */
  lemma CompactedIsSorted(s: seq<IcmpEchoResult>, historySize: nat)
    requires SortedBySent(s) && historySize >= 1 && 1 <= |s| <= 2 * historySize
    ensures SortedBySent(Compact(s, historySize)) && 1 <= |Compact(s, historySize)| < 2 * historySize
  {
    if |s| >= historySize * 2 {
      SuffixSorted(s, |s| - historySize);
    }
  }

  // ---------------------------------------------------------------------------
  // Adaptive exponentially weighted averages

  function Max(a: real, b: real): real { if a >= b then a else b }
  function Min(a: real, b: real): real { if a <= b then a else b }

  /**
   * The weight of the newest sample: max(1/weight, 1/n), where n counts the
   * results including the new one. While n < weight the average is a plain
   * running mean.
   */
  function AdaptiveWeight(weight: real, n: nat): real
    requires weight != 0.0 && n >= 1
  {
    Max(1.0 / weight, 1.0 / (n as real))
  }

  /**
   * The weight is the larger of the two reciprocals; with weight >= 1 it is
   * in (0, 1], and it is exactly 1 for the first sample; a negative weight
   * leaves 1/n.
   */
  lemma AdaptiveWeightBounds(weight: real, n: nat)
    requires weight != 0.0 && n >= 1
    ensures var w := AdaptiveWeight(weight, n);
      w >= 1.0 / weight && w >= 1.0 / (n as real)
      && (w == 1.0 / weight || w == 1.0 / (n as real))
      && (weight >= 1.0 ==> 0.0 < w <= 1.0)
      && (weight >= 1.0 && n == 1 ==> w == 1.0)
      && (weight < 0.0 ==> w == 1.0 / (n as real))
  {
    if weight >= 1.0 {
      assert 1.0 / weight <= 1.0;
      assert 1.0 / (n as real) <= 1.0;
    }
  }

  /** One step of an exponentially weighted average with weight w on the new sample x. */
  function Ewma(average: real, x: real, w: real): real {
    average * (1.0 - w) + x * w
  }

  /**
   * A step whose weight is in (0, 1] lands between the old average and the
   * sample; with weight 1 it is the sample.
   */
  lemma EwmaBetween(average: real, x: real, w: real)
    requires 0.0 < w <= 1.0
    ensures Min(average, x) <= Ewma(average, x, w) <= Max(average, x)
    ensures w == 1.0 ==> Ewma(average, x, w) == x
  {
    var d := x - average;
    assert Ewma(average, x, w) == average + w * d;
    // 0 <= w * d <= d when d >= 0, and d <= w * d <= 0 otherwise
    MulNonNegative(1.0 - w, if d >= 0.0 then d else -d);
    MulNonNegative(w, if d >= 0.0 then d else -d);
  }

  lemma MulNonNegative(a: real, b: real)
    requires a >= 0.0 && b >= 0.0
    ensures a * b >= 0.0
  {
  }

  /** A result is lost iff it carries an error code or a non-success status. */
  predicate IsLost(r: IcmpEchoResult) {
    r.errorCode != 0 || r.statusCode != 0
  }

  /** The loss sample: the bool isLost converted to 1.0 or 0.0. */
  function LossSample(r: IcmpEchoResult): (x: real)
    ensures x == 1.0 <==> IsLost(r)
    ensures x == 0.0 <==> !IsLost(r)
  {
    if IsLost(r) then 1.0 else 0.0
  }

  /**
   * With lossWeight >= 1 the loss estimate stays in [0, 1], and the first
   * result into an empty history sets it to exactly 1 if lost and 0 if not.
   */
  lemma LossStaysInUnitInterval(loss: real, r: IcmpEchoResult, lossWeight: real, n: nat)
    requires lossWeight >= 1.0 && n >= 1 && 0.0 <= loss <= 1.0
    ensures 0.0 <= Ewma(loss, LossSample(r), AdaptiveWeight(lossWeight, n)) <= 1.0
    ensures 0.0 <= 100.0 * Ewma(loss, LossSample(r), AdaptiveWeight(lossWeight, n)) <= 100.0
    ensures n == 1 ==> Ewma(loss, LossSample(r), AdaptiveWeight(lossWeight, n)) == LossSample(r)
  {
    AdaptiveWeightBounds(lossWeight, n);
    EwmaBetween(loss, LossSample(r), AdaptiveWeight(lossWeight, n));
  }

  /** Latency in milliseconds, from integer nanoseconds. */
  function Milliseconds(latency: int): real {
    latency as real / NS_PER_MS as real
  }

  // ---------------------------------------------------------------------------
  // Graph scale

  /** The grid sizes the scale rule can choose. */
  predicate OnLadder(g: real) {
    g == 1.0 || g == 5.0 || g == 10.0 || g == 25.0 || g == 50.0 || g == 100.0
  }

  /** The next larger rung above 5 (100 has none). */
  function NextRung(g: real): real {
    if g == 5.0 then 10.0 else if g == 10.0 then 25.0 else if g == 25.0 then 50.0 else 100.0
  }

  /**
   * The grid ladder on the height in milliseconds the graph shows: the
   * largest of 10, 25, 50 and 100 of which at least three cells fit, or 5
   * when not even three cells of 10 fit.
   */
  function GridSize(assumedHeight: real): (g: real)
    ensures OnLadder(g) && g != 1.0
    ensures g == 5.0 || 3.0 * g <= assumedHeight
    ensures g == 100.0 || assumedHeight < 3.0 * NextRung(g)
  {
    if assumedHeight >= 300.0 then 100.0
    else if assumedHeight >= 150.0 then 50.0
    else if assumedHeight >= 75.0 then 25.0
    else if assumedHeight >= 30.0 then 10.0
    else 5.0
  }

  /** A taller graph never gets a finer grid. */
  lemma GridSizeMonotone(h1: real, h2: real)
    requires h1 <= h2
    ensures GridSize(h1) <= GridSize(h2)
  {
  }

  /** The vertical scale of the graph: pixels per millisecond, offset and grid size. */
  datatype Scale = Scale(pixelPerMs: real, pingOffsetMs: real, gridSizeY: real)

  /** Whether a scale is one the rule produces (or the initial one). */
  predicate ScaleInRange(s: Scale) {
    0.0 < s.pixelPerMs <= HEIGHT / 5.0 && OnLadder(s.gridSizeY)
  }

  /**
   * The rescale at the end of calculateStats. It fires when the optimal
   * scale HEIGHT / (2 * mean + jitter) is more than 20% away from the current
   * one. When that denominator is not positive, the double arithmetic gives
   * an infinite or negative optimum, the 20% test is false (NaN or a
   * negative ratio), and nothing changes.
   */
  function Rescale(meanPing: real, jitter: real, s: Scale): (r: Scale)
  {
    var denominator := meanPing * 2.0 + jitter;
    if denominator <= 0.0 then s
    else
      var optimalPixelPerMs := HEIGHT / denominator;
      var pixelPerMsDiff := if optimalPixelPerMs >= s.pixelPerMs then optimalPixelPerMs - s.pixelPerMs
                            else s.pixelPerMs - optimalPixelPerMs;
      if pixelPerMsDiff / optimalPixelPerMs > 0.2 then
        if optimalPixelPerMs >= HEIGHT / 5.0 then Scale(HEIGHT / 5.0, 0.0, 1.0)
        else
          var pixelPerMs := Min(HEIGHT / 20.0, optimalPixelPerMs);
          Scale(pixelPerMs, 0.0, GridSize(HEIGHT / pixelPerMs))
      else s
  }

  /**
   * A rescale keeps the scale in range; when it changes the scale, the offset
   * is 0, and either the scale is the maximum HEIGHT/5 with grid 1, or it is
   * at most HEIGHT/20 with a grid of 5 or more chosen by the ladder.
   */
  lemma RescaleInRange(meanPing: real, jitter: real, s: Scale)
    requires ScaleInRange(s)
    ensures ScaleInRange(Rescale(meanPing, jitter, s))
    ensures var r := Rescale(meanPing, jitter, s);
      r == s
      || (r.pingOffsetMs == 0.0
          && ((r.pixelPerMs == HEIGHT / 5.0 && r.gridSizeY == 1.0)
              || (r.pixelPerMs <= HEIGHT / 20.0 && r.gridSizeY == GridSize(HEIGHT / r.pixelPerMs))))
  {
  }

  /** An unchanged mean and jitter never trigger a second rescale right after one to the optimum. */
  lemma RescaleSettles(meanPing: real, jitter: real, s: Scale)
    requires meanPing * 2.0 + jitter > 0.0
    requires s.pixelPerMs == HEIGHT / (meanPing * 2.0 + jitter)
    ensures Rescale(meanPing, jitter, s) == s
  {
  }

  // ---------------------------------------------------------------------------
  // The statistics

  /** The scalar statistics PingData keeps (its double fields, less the weights). */
  datatype Statistics = Statistics(
    lastPing: real,
    meanPing: real,
    maxPing: real,
    squaredJitter: real,
    jitter: real,
    loss: real,
    lossPercentage: real,
    scale: Scale)

  /** The initial values of the fields. */
  const INITIAL_STATISTICS: Statistics := Statistics(0.0, 0.0, 0.0, 0.0, 0.0, 0.0, 0.0, Scale(1.0, 0.0, 50.0))

  /**
   * The loss update of insertPingResult, with n results in the history (the
   * new one included). Nothing but the loss and its percentage changes.
   */
  function LossStep(st: Statistics, r: IcmpEchoResult, lossWeight: real, n: nat): (st': Statistics)
    requires lossWeight != 0.0 && n >= 1
    ensures st' == st.(loss := st'.loss, lossPercentage := st'.lossPercentage)
  {
    var lw := AdaptiveWeight(lossWeight, n);
    var loss := st.loss * (1.0 - lw) + LossSample(r) * lw;
    st.(loss := loss, lossPercentage := 100.0 * loss)
  }

  /**
   * calculateStats, with n results in the history (the new one included).
   * The loss fields are left alone.
   */
  function CalculateStats(st: Statistics, r: IcmpEchoResult, meanWeight: real, jitterWeight: real, n: nat,
                          sqrt: real -> real): (st': Statistics)
    requires meanWeight != 0.0 && jitterWeight != 0.0 && n >= 1
    ensures st'.loss == st.loss && st'.lossPercentage == st.lossPercentage
  {
    var lastPing := Milliseconds(r.latency);
    var maxPing := Max(st.maxPing, lastPing);
    var mw := AdaptiveWeight(meanWeight, n);
    var meanPing := (1.0 - mw) * st.meanPing + mw * lastPing;
    var jw := AdaptiveWeight(jitterWeight, n);
    var sd := (meanPing - lastPing) * (meanPing - lastPing);
    var squaredJitter := (1.0 - jw) * st.squaredJitter + jw * sd;
    var jitter := sqrt(squaredJitter);
    Statistics(lastPing, meanPing, maxPing, squaredJitter, jitter, st.loss, st.lossPercentage,
               Rescale(meanPing, jitter, st.scale))
  }

  /**
   * The loss update is an exponentially weighted step towards 1 for a lost
   * result and 0 otherwise; with lossWeight >= 1 it keeps the loss in [0, 1]
   * and the percentage in [0, 100], and the first result into an empty
   * history sets the loss to exactly 1 or 0.
   */
  lemma LossStepInUnitInterval(st: Statistics, r: IcmpEchoResult, lossWeight: real, n: nat)
    requires lossWeight >= 1.0 && n >= 1 && 0.0 <= st.loss <= 1.0
    ensures var st' := LossStep(st, r, lossWeight, n);
      st'.loss == Ewma(st.loss, LossSample(r), AdaptiveWeight(lossWeight, n))
      && 0.0 <= st'.loss <= 1.0 && st'.lossPercentage == 100.0 * st'.loss
      && 0.0 <= st'.lossPercentage <= 100.0
      && (n == 1 ==> st'.loss == LossSample(r))
  {
    LossStaysInUnitInterval(st.loss, r, lossWeight, n);
  }

  /**
   * The mean of calculateStats: the last ping is the latency in
   * milliseconds, the maximum grows to it, and the mean takes a weighted step
   * towards it that, with a weight of at least 1, lands between the old mean
   * and the sample (exactly on the sample for the first result).
   */
  lemma CalculateStatsMean(st: Statistics, r: IcmpEchoResult, meanWeight: real, jitterWeight: real, n: nat,
                           sqrt: real -> real)
    requires meanWeight >= 1.0 && jitterWeight != 0.0 && n >= 1
    ensures var st' := CalculateStats(st, r, meanWeight, jitterWeight, n, sqrt);
      st'.lastPing == Milliseconds(r.latency)
      && st'.maxPing == Max(st.maxPing, st'.lastPing) && st'.maxPing >= st.maxPing
      && st'.meanPing == Ewma(st.meanPing, st'.lastPing, AdaptiveWeight(meanWeight, n))
      && Min(st.meanPing, st'.lastPing) <= st'.meanPing <= Max(st.meanPing, st'.lastPing)
      && (n == 1 ==> st'.meanPing == st'.lastPing)
  {
    AdaptiveWeightBounds(meanWeight, n);
    EwmaBetween(st.meanPing, Milliseconds(r.latency), AdaptiveWeight(meanWeight, n));
  }

  /**
   * The jitter of calculateStats: the squared deviation of the sample from
   * the new mean is averaged in, which with a weight of at least 1 keeps the
   * squared jitter non-negative; the jitter is its root.
   */
  lemma CalculateStatsJitter(st: Statistics, r: IcmpEchoResult, meanWeight: real, jitterWeight: real, n: nat,
                             sqrt: real -> real)
    requires meanWeight != 0.0 && jitterWeight >= 1.0 && n >= 1 && st.squaredJitter >= 0.0
    ensures var st' := CalculateStats(st, r, meanWeight, jitterWeight, n, sqrt);
      st'.squaredJitter == Ewma(st.squaredJitter, (st'.meanPing - st'.lastPing) * (st'.meanPing - st'.lastPing),
                                AdaptiveWeight(jitterWeight, n))
      && st'.squaredJitter >= 0.0 && st'.jitter == sqrt(st'.squaredJitter)
  {
    var st' := CalculateStats(st, r, meanWeight, jitterWeight, n, sqrt);
    SquaredJitterNonNegative(st.squaredJitter, st'.meanPing, st'.lastPing, jitterWeight, n);
  }

  /** calculateStats ends with the rescale of the new mean and jitter, which keeps the scale in range. */
  lemma CalculateStatsRescales(st: Statistics, r: IcmpEchoResult, meanWeight: real, jitterWeight: real, n: nat,
                               sqrt: real -> real)
    requires meanWeight != 0.0 && jitterWeight != 0.0 && n >= 1 && ScaleInRange(st.scale)
    ensures var st' := CalculateStats(st, r, meanWeight, jitterWeight, n, sqrt);
      st'.scale == Rescale(st'.meanPing, st'.jitter, st.scale) && ScaleInRange(st'.scale)
  {
    var st' := CalculateStats(st, r, meanWeight, jitterWeight, n, sqrt);
    RescaleInRange(st'.meanPing, st'.jitter, st.scale);
  }

  /** What insertPingResult does to the statistics: a lost result changes only the loss. */
  function StatsAfterInsert(st: Statistics, r: IcmpEchoResult, meanWeight: real, jitterWeight: real, lossWeight: real,
                            n: nat, sqrt: real -> real): (st': Statistics)
    requires meanWeight != 0.0 && jitterWeight != 0.0 && lossWeight != 0.0 && n >= 1
    ensures IsLost(r) ==> st' == st.(loss := st'.loss, lossPercentage := st'.lossPercentage)
  {
    var lossUpdated := LossStep(st, r, lossWeight, n);
    if IsLost(r) then lossUpdated else CalculateStats(lossUpdated, r, meanWeight, jitterWeight, n, sqrt)
  }

  /** insertPingResult keeps the scale in range. */
  lemma StatsAfterInsertInRange(st: Statistics, r: IcmpEchoResult, meanWeight: real, jitterWeight: real,
                                lossWeight: real, n: nat, sqrt: real -> real)
    requires meanWeight != 0.0 && jitterWeight != 0.0 && lossWeight != 0.0 && n >= 1 && ScaleInRange(st.scale)
    ensures ScaleInRange(StatsAfterInsert(st, r, meanWeight, jitterWeight, lossWeight, n, sqrt).scale)
  {
    if !IsLost(r) {
      CalculateStatsRescales(LossStep(st, r, lossWeight, n), r, meanWeight, jitterWeight, n, sqrt);
    }
  }

  // ---------------------------------------------------------------------------
  // The history object

  class PingData {
    var traceResults: seq<IcmpEchoResult>
    var pingResults: seq<IcmpEchoResult>
    /** The result _lastResult points at: the back of the vector inserted into last. */
    var lastResult: Option<IcmpEchoResult>
    var historySize: nat
    /** The responder of the newest result (its name in the source). */
    var lastResponder: Addr

    var meanWeight: real
    var jitterWeight: real
    var lossWeight: real

    var stats: Statistics

    /** What every operation keeps. */
    ghost predicate Valid()
      reads this
    {
      historySize >= 1 && meanWeight != 0.0 && jitterWeight != 0.0 && lossWeight != 0.0
      && |pingResults| < 2 * historySize && |traceResults| < 2 * historySize
      && SortedBySent(pingResults)
      && ScaleInRange(stats.scale)
    }

    /**
     * The constructor, with the four values read from the "stats" node of
     * the configuration passed in (their defaults are the DEFAULT_ constants).
     */
    constructor (historySize: nat, meanWeight: real, jitterWeight: real, lossWeight: real)
      requires historySize >= 1 && meanWeight != 0.0 && jitterWeight != 0.0 && lossWeight != 0.0
      ensures Valid()
      ensures traceResults == [] && pingResults == [] && lastResult == None
      ensures this.historySize == historySize && this.meanWeight == meanWeight
      ensures this.jitterWeight == jitterWeight && this.lossWeight == lossWeight
      ensures stats == INITIAL_STATISTICS
    {
      traceResults, pingResults, lastResult := [], [], None;
      this.historySize := historySize;
      lastResponder := INADDR_ANY;
      this.meanWeight, this.jitterWeight, this.lossWeight := meanWeight, jitterWeight, lossWeight;
      stats := INITIAL_STATISTICS;
    }

    /**
     * insertPingResult: sorted insertion, the loss update, the statistics
     * for a result that was not lost, compaction, and _lastResult.
     */
    method InsertPingResult(r: IcmpEchoResult, sqrt: real -> real)
      requires Valid()
      modifies this
      ensures Valid()
      ensures meanWeight == old(meanWeight) && jitterWeight == old(jitterWeight) && lossWeight == old(lossWeight)
      ensures pingResults == Compact(InsertSorted(old(pingResults), r), historySize)
      ensures traceResults == old(traceResults) && historySize == old(historySize)
      ensures lastResponder == r.responder
      ensures lastResult == Some(pingResults[|pingResults| - 1])
      ensures stats == StatsAfterInsert(old(stats), r, meanWeight, jitterWeight, lossWeight,
                                        |old(pingResults)| + 1, sqrt)
    {
      var previous, n := stats, |pingResults| + 1;
      lastResponder := r.responder;
      InsertIntoHistory(r);
      lastResult := Some(pingResults[|pingResults| - 1]);
      UpdateStatistics(previous, r, n, sqrt);
    }

    /** The history part of insertPingResult: sorted insertion, then compaction. */
    method InsertIntoHistory(r: IcmpEchoResult)
      requires historySize >= 1 && |pingResults| < 2 * historySize && SortedBySent(pingResults)
      modifies this`pingResults
      ensures pingResults == Compact(InsertSorted(old(pingResults), r), historySize)
      ensures 1 <= |pingResults| < 2 * historySize && SortedBySent(pingResults)
    {
      InsertedIsSorted(pingResults, r);
      pingResults := InsertSorted(pingResults, r);
      CompactedIsSorted(pingResults, historySize);
      pingResults := Compact(pingResults, historySize);
    }

    /**
     * The statistics part of insertPingResult: the statistics that held
     * before the insert, updated for a history of n results.
     */
    method UpdateStatistics(previous: Statistics, r: IcmpEchoResult, n: nat, sqrt: real -> real)
      requires meanWeight != 0.0 && jitterWeight != 0.0 && lossWeight != 0.0 && n >= 1 && ScaleInRange(previous.scale)
      modifies this`stats
      ensures stats == StatsAfterInsert(previous, r, meanWeight, jitterWeight, lossWeight, n, sqrt)
      ensures ScaleInRange(stats.scale)
    {
      StatsAfterInsertInRange(previous, r, meanWeight, jitterWeight, lossWeight, n, sqrt);
      stats := StatsAfterInsert(previous, r, meanWeight, jitterWeight, lossWeight, n, sqrt);
    }

    /** insertTraceResult: append in arrival order, compact, and point _lastResult at the new entry. */
    method InsertTraceResult(r: IcmpEchoResult)
      requires Valid()
      modifies this
      ensures Valid()
      ensures traceResults == Compact(old(traceResults) + [r], historySize)
      ensures lastResult == Some(r) && lastResponder == r.responder
      ensures pingResults == old(pingResults) && historySize == old(historySize) && stats == old(stats)
      ensures meanWeight == old(meanWeight) && jitterWeight == old(jitterWeight) && lossWeight == old(lossWeight)
    {
      lastResponder := r.responder;
      traceResults := traceResults + [r];
      CompactKeepsNewest(traceResults, historySize);
      if |traceResults| >= historySize * 2 {
        traceResults := traceResults[|traceResults| - historySize..];
      }
      lastResult := Some(traceResults[|traceResults| - 1]);
    }
  }

  /**
   * After an insert of ping results, _lastResult names the latest-sent entry
   * of the history.
   */
  lemma LastResultIsLatest(s: seq<IcmpEchoResult>, r: IcmpEchoResult, historySize: nat)
    requires SortedBySent(s) && historySize >= 1 && |s| < 2 * historySize
    ensures var c := Compact(InsertSorted(s, r), historySize);
      |c| >= 1 && forall j | 0 <= j < |c| :: c[j].sentTime <= c[|c| - 1].sentTime
  {
    InsertedIsSorted(s, r);
    var c := Compact(InsertSorted(s, r), historySize);
    CompactedIsSorted(InsertSorted(s, r), historySize);
    SortedIsPairwise(c);
  }

  /** The last entry after an insert is the old last entry or the new result. */
  lemma LastAfterInsert(s: seq<IcmpEchoResult>, r: IcmpEchoResult, historySize: nat)
    requires historySize >= 1 && |s| < 2 * historySize
    ensures var c, s' := Compact(InsertSorted(s, r), historySize), InsertSorted(s, r);
      |c| >= 1 && c[|c| - 1] == s'[|s'| - 1]
      && s'[|s'| - 1] == (if UpperBound(s, r.sentTime) == |s| then r else s[|s| - 1])
  {
    var i, s' := UpperBound(s, r.sentTime), InsertSorted(s, r);
    InsertSortedShape(s, r);
    if i < |s| {
      assert s'[|s'| - 1] == s[|s'| - 2];
    }
    CompactKeepsNewest(s', historySize);
  }

  /**
   * The new result is the last entry when nothing in the old history was
   * sent later; otherwise the old history's last entry stays last, and the
   * new result is not the one _lastResult names unless it equals it.
   */
  lemma LastResultIsNewIffLatest(s: seq<IcmpEchoResult>, r: IcmpEchoResult, historySize: nat)
    requires historySize >= 1 && |s| < 2 * historySize
    ensures var c := Compact(InsertSorted(s, r), historySize);
      |c| >= 1
      && ((forall j | 0 <= j < |s| :: s[j].sentTime <= r.sentTime) ==> c[|c| - 1] == r)
      && ((exists j | 0 <= j < |s| :: s[j].sentTime > r.sentTime) ==> c[|c| - 1] == s[|s| - 1])
  {
    LastAfterInsert(s, r, historySize);
    var i := UpperBound(s, r.sentTime);
    UpperBoundSplits(s, r.sentTime);
    if exists j | 0 <= j < |s| :: s[j].sentTime > r.sentTime {
      var j :| 0 <= j < |s| && s[j].sentTime > r.sentTime;
      assert i <= j;
    }
  }

  /**
   * The statistics of the first successful result into an empty history:
   * the mean is that latency and the squared jitter 0.
   */
  lemma FirstResultSetsMean(meanPing: real, squaredJitter: real, latency: real, meanWeight: real, jitterWeight: real)
    requires meanWeight >= 1.0 && jitterWeight >= 1.0
    ensures Ewma(meanPing, latency, AdaptiveWeight(meanWeight, 1)) == latency
    ensures Ewma(squaredJitter, 0.0, AdaptiveWeight(jitterWeight, 1)) == 0.0
  {
    AdaptiveWeightBounds(meanWeight, 1);
    AdaptiveWeightBounds(jitterWeight, 1);
    EwmaBetween(meanPing, latency, AdaptiveWeight(meanWeight, 1));
    EwmaBetween(squaredJitter, 0.0, AdaptiveWeight(jitterWeight, 1));
  }

  /** With weights of at least 1 the squared jitter never goes negative. */
  lemma SquaredJitterNonNegative(squaredJitter: real, meanPing: real, lastPing: real, jitterWeight: real, n: nat)
    requires jitterWeight >= 1.0 && n >= 1 && squaredJitter >= 0.0
    ensures Ewma(squaredJitter, (meanPing - lastPing) * (meanPing - lastPing), AdaptiveWeight(jitterWeight, n)) >= 0.0
  {
    AdaptiveWeightBounds(jitterWeight, n);
    EwmaBetween(squaredJitter, (meanPing - lastPing) * (meanPing - lastPing), AdaptiveWeight(jitterWeight, n));
  }
}
