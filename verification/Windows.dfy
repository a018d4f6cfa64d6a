/** Counting events in consecutive time windows: bursts, and the steadiness of connections.
    Times and durations are nanoseconds; a window excludes both of its ends, as Go's After and Before do. */
module Windows {
  import opened Numbers
  import opened Events
  import opened Diagnosis
  import opened Percentiles

  const SECOND := 1_000_000_000
  const TENTH := 100_000_000

  function Inside(start: int, end: int): Event -> bool {
    (e: Event) => start < EventTime(e) < end
  }

  function InWindow(es: seq<Event>, start: int, width: int): nat {
    CountIf(es, Inside(start, start + width))
  }

  /** The counts of n consecutive windows. */
  function WindowCounts(es: seq<Event>, start: int, width: int, n: nat): (counts: seq<nat>)
    ensures |counts| == n
  {
    if n == 0 then [] else WindowCounts(es, start, width, n - 1) + [InWindow(es, start + (n - 1) * width, width)]
  }

  lemma {:induction false} WindowCountsAt(es: seq<Event>, start: int, width: int, n: nat, i: nat)
    requires i < n
    ensures WindowCounts(es, start, width, n)[i] == InWindow(es, start + i * width, width)
  {
    if i < n - 1 {
      WindowCountsAt(es, start, width, n - 1, i);
    }
  }

  /** The events that n consecutive windows see: those inside their span and on none of the boundaries. */
  function OffBoundary(start: int, width: int, n: nat): Event -> bool
    requires width > 0
  {
    (e: Event) => start < EventTime(e) < start + n * width && (EventTime(e) - start) % width != 0
  }

  /** The events strictly between two times. */
  ghost function EventsBetween(es: seq<Event>, start: int, end: int): set<int> {
    set i | 0 <= i < |es| && start < EventTime(es[i]) < end
  }

  /** The count of window i is the number of events strictly between its two ends. */
  lemma WindowExactly(es: seq<Event>, start: int, width: int, n: nat, i: nat)
    requires i < n
    ensures WindowCounts(es, start, width, n)[i] == |EventsBetween(es, start + i * width, start + i * width + width)|
  {
    WindowCountsAt(es, start, width, n, i);
    CountBetween(es, start + i * width, width);
  }

  lemma CountBetween(es: seq<Event>, start: int, width: int)
    ensures InWindow(es, start, width) == |EventsBetween(es, start, start + width)|
  {
    CountIfExactly(es, Inside(start, start + width));
    assert Positions(es, Inside(start, start + width)) == EventsBetween(es, start, start + width);
  }

  lemma {:induction false} CountEither(es: seq<Event>, p: Event -> bool, q: Event -> bool, r: Event -> bool)
    requires forall e :: e in es ==> (p(e) <==> q(e) || r(e)) && !(q(e) && r(e))
    ensures CountIf(es, p) == CountIf(es, q) + CountIf(es, r)
  {
    if es != [] {
      var front, e := es[..|es| - 1], es[|es| - 1];
      assert es == front + [e];
      CountEither(front, p, q, r);
      FilterSnoc(front, e, p);
      FilterSnoc(front, e, q);
      FilterSnoc(front, e, r);
    }
  }

  lemma BoundaryRemainder(x: int, width: int, k: nat)
    requires width > 0 && k * width <= x < k * width + width
    ensures x % width == x - k * width
  {
    assert k * width >= 0;
    DivideBetween(x, width, k);
    assert x == x / width * width + x % width;
  }

  lemma OneMoreWindow(e: Event, start: int, width: int, n: nat)
    requires width > 0 && n > 0
    ensures var last := start + (n - 1) * width;
            && (OffBoundary(start, width, n)(e) <==>
                OffBoundary(start, width, n - 1)(e) || Inside(last, last + width)(e))
            && !(OffBoundary(start, width, n - 1)(e) && Inside(last, last + width)(e))
  {
    var x := EventTime(e) - start;
    assert n * width == (n - 1) * width + width;
    assert (n - 1) * width >= 0;
    if (n - 1) * width <= x < n * width {
      BoundaryRemainder(x, width, n - 1);
    }
  }

  /** The window counts add up to exactly the events inside the span that lie on no window boundary. */
  lemma {:induction false} WindowsCountExactly(es: seq<Event>, start: int, width: int, n: nat)
    requires width > 0
    ensures Sum(WindowCounts(es, start, width, n)) == CountIf(es, OffBoundary(start, width, n)) <= |es|
  {
    if n == 0 {
      FilterNone(es, OffBoundary(start, width, 0));
    } else {
      WindowsCountExactly(es, start, width, n - 1);
      var last := start + (n - 1) * width;
      CountOneMoreWindow(es, start, width, n);
      SumSnoc(WindowCounts(es, start, width, n - 1), InWindow(es, last, width));
    }
  }

  lemma CountOneMoreWindow(es: seq<Event>, start: int, width: int, n: nat)
    requires width > 0 && n > 0
    ensures CountIf(es, OffBoundary(start, width, n)) ==
            CountIf(es, OffBoundary(start, width, n - 1)) + InWindow(es, start + (n - 1) * width, width)
  {
    var last := start + (n - 1) * width;
    var wider, narrower := OffBoundary(start, width, n), OffBoundary(start, width, n - 1);
    var window := Inside(last, last + width);
    forall e | e in es
      ensures (wider(e) <==> narrower(e) || window(e)) && !(narrower(e) && window(e))
    {
      OneMoreWindow(e, start, width, n);
    }
    CountEither(es, wider, narrower, window);
  }

  // ----- bursts

  datatype Burst = Burst(time: int, count: nat)

  /** What the report shows of a burst: its rate, also as a multiple of the average rate. */
  datatype BurstInfo = BurstInfo(time: int, rate: real, multiplier: real)

  function InfoOf(b: Burst, events: nat, duration: int): BurstInfo {
    BurstInfo(b.time, PerSecond(b.count, SECOND), Multiplier(b.count, events, duration))
  }

  /** count over a duration in nanoseconds, per second */
  function PerSecond(count: nat, duration: int): real
    requires duration != 0
  {
    count as real * SECOND as real / duration as real
  }

  /** The rate in one second over the average rate; only finite for some events over some time. */
  function Multiplier(count: nat, events: nat, duration: int): real {
    if events == 0 || duration <= 0 then 0.0
    else
      RateIsPositive(events, duration);
      PerSecond(count, SECOND) / PerSecond(events, duration)
  }

  lemma RateIsPositive(count: nat, duration: int)
    requires count > 0 && duration > 0
    ensures PerSecond(count, duration) > 0.0
  {
  }

  lemma Quotients(x: real, y: real, k: real)
    requires y > 0.0
    ensures x / y * y == x
    ensures x / y > k <==> x > k * y
  {
    var q := x / y;
    assert q * y == x;
    if q > k {
      assert (q - k) * y > 0.0;
    } else {
      assert (k - q) * y >= 0.0;
    }
  }

  lemma RealProduct(a: int, b: int)
    ensures (a * b) as real == a as real * b as real
  {
  }

  /** The integer test for a burst is the test of the code: the rate exceeds twice the average rate. */
  lemma MultiplierAboveTwo(count: nat, events: nat, duration: int)
    requires events > 0 && duration > 0
    ensures Bursting(count, duration, events) <==> Multiplier(count, events, duration) > 2.0
  {
    var rate, average, d := PerSecond(count, SECOND), PerSecond(events, duration), duration as real;
    RateIsPositive(events, duration);
    Quotients(rate, average, 2.0);
    Quotients(count as real * SECOND as real, SECOND as real, 0.0);
    RateIsCount(count);
    Quotients(events as real * SECOND as real, d, rate / 2.0);
    TwiceTheRate(rate, average, d, events as real * SECOND as real);
    RealProduct(count, duration);
    RealProduct(events, SECOND);
  }

  lemma RateIsCount(count: nat)
    ensures PerSecond(count, SECOND) == count as real
  {
  }

  lemma TwiceTheRate(rate: real, average: real, d: real, x: real)
    requires d > 0.0 && average * d == x
    ensures rate > 2.0 * average <==> rate * d > 2.0 * x
  {
    if rate > 2.0 * average {
      assert (rate - 2.0 * average) * d > 0.0;
    } else {
      assert (2.0 * average - rate) * d >= 0.0;
    }
  }

  /** A window of one second bursts when count/1s > 2 * events/duration, that is
      count * duration > 2 * events * 1s. */
  predicate Bursting(count: nat, duration: int, events: nat) {
    count * duration > 2 * events * SECOND
  }

  /** The bursts among the first n one-second windows: those that hold more than twice the average rate. */
  function Bursts(es: seq<Event>, start: int, duration: int, n: nat): (bursts: seq<Burst>)
    ensures |bursts| <= n
  {
    if n == 0 then []
    else
      var time := start + (n - 1) * SECOND;
      var count := InWindow(es, time, SECOND);
      Bursts(es, start, duration, n - 1) +
      if Bursting(count, duration, |es|) then [Burst(time, count)] else []
  }

  function NumWindows(duration: int): int {
    if duration >= 0 then duration / SECOND else -((-duration) / SECOND)
  }

  /** The bursts of a collection period. */
  function DetectedBursts(es: seq<Event>, start: int, duration: int): seq<Burst> {
    if |es| < 10 || NumWindows(duration) < 2 then [] else Bursts(es, start, duration, NumWindows(duration))
  }

  /** A window that ends within the period is a burst exactly when there are ten events or more, the period
      has two seconds or more, and the window holds more than twice the average of one second. */
  lemma BurstExactly(es: seq<Event>, start: int, duration: int, i: nat)
    ensures var time := start + i * 1_000_000_000;
            var count := |EventsBetween(es, time, time + 1_000_000_000)|;
            Burst(time, count) in DetectedBursts(es, start, duration) <==>
            && |es| >= 10 && duration >= 2_000_000_000
            && (i + 1) * 1_000_000_000 <= duration
            && count * duration > 2 * |es| * 1_000_000_000
  {
    CountBetween(es, start + i * SECOND, SECOND);
    if duration >= 0 {
      BurstAt(es, start, duration, NumWindows(duration), i);
    }
  }

  lemma {:induction false} BurstAt(es: seq<Event>, start: int, duration: int, n: nat, i: nat)
    ensures var time := start + i * SECOND;
            var count := InWindow(es, time, SECOND);
            Burst(time, count) in Bursts(es, start, duration, n) <==> i < n && Bursting(count, duration, |es|)
  {
    if n > 0 {
      BurstAt(es, start, duration, n - 1, i);
    }
  }

  /** And nothing else is listed. */
  lemma {:induction false} BurstIsWindow(es: seq<Event>, start: int, duration: int, n: nat, b: Burst) returns (i: nat)
    requires b in Bursts(es, start, duration, n)
    ensures i < n && b.time == start + i * 1_000_000_000
    ensures b.count == |EventsBetween(es, b.time, b.time + 1_000_000_000)|
  {
    i := n - 1;
    var time := start + i * SECOND;
    if b == Burst(time, InWindow(es, time, SECOND)) {
      CountBetween(es, time, SECOND);
    } else {
      i := BurstIsWindow(es, start, duration, n - 1, b);
    }
  }

  /** The figures of a burst: its events per second, and that rate over the average rate of the period. */
  lemma InfoExactly(b: Burst, events: nat, duration: int)
    requires events > 0 && duration > 0
    ensures var info := InfoOf(b, events, duration);
            && info.time == b.time && info.rate == b.count as real
            && info.multiplier * (events as real * 1_000_000_000.0) == b.count as real * duration as real
  {
    var rate, average, d := PerSecond(b.count, SECOND), PerSecond(events, duration), duration as real;
    var m := Multiplier(b.count, events, duration);
    RateIsCount(b.count);
    RateIsPositive(events, duration);
    Quotients(rate, average, 0.0);
    PerSecondExactly(events, duration);
    assert m * average == rate;
    ScaleBoth(m, average, rate, d);
  }

  lemma ScaleBoth(m: real, average: real, rate: real, d: real)
    requires m * average == rate
    ensures m * (average * d) == rate * d
  {
  }

  /** So many events per second, over a duration in nanoseconds, are count events in all. */
  ghost predicate IsRate(rate: real, count: nat, duration: int) {
    rate * duration as real == count as real * 1_000_000_000.0
  }

  lemma PerSecondExactly(count: nat, duration: int)
    requires duration != 0
    ensures IsRate(PerSecond(count, duration), count, duration)
  {
    var q, d := PerSecond(count, duration), duration as real;
    assert q * d == count as real * SECOND as real;
  }

  method DetectBursts(es: seq<Event>, startTime: int, duration: int) returns (infos: seq<BurstInfo>)
    ensures var bursts := DetectedBursts(es, startTime, duration);
            |infos| == |bursts| && forall i :: 0 <= i < |bursts| ==> infos[i] == InfoOf(bursts[i], |es|, duration)
  {
    infos := [];
    ghost var bursts: seq<Burst> := [];
    if |es| < 10 {
      return;
    }
    var numWindows := NumWindows(duration);
    if numWindows < 2 {
      return;
    }
    var windowStart := startTime;
    for i := 0 to numWindows
      invariant windowStart == startTime + i * SECOND
      invariant bursts == Bursts(es, startTime, duration, i) && |infos| == |bursts|
      invariant forall k :: 0 <= k < |bursts| ==> infos[k] == InfoOf(bursts[k], |es|, duration)
    {
      var windowEnd := windowStart + SECOND;
      var count := CountEvents(es, Inside(windowStart, windowEnd));
      if Bursting(count, duration, |es|) {
        var multiplier := Multiplier(count, |es|, duration);
        infos := infos + [BurstInfo(windowStart, PerSecond(count, SECOND), multiplier)];
        bursts := bursts + [Burst(windowStart, count)];
      }
      windowStart := windowEnd;
    }
  }

  lemma HoldStep(b: nat, events: nat, duration: nat, total: nat, count: nat)
    requires HoldMuch(b, events, duration, total)
    ensures HoldMuch(if Bursting(count, duration, events) then b + 1 else b, events, duration, total + count)
  {
    var share := 2 * events * SECOND;
    assert duration * (total + count) == duration * total + count * duration;
    assert (b + 1) * share == b * share + share;
    assert count * duration >= 0;
  }

  ghost predicate HoldMuch(b: nat, events: nat, duration: nat, held: nat) {
    var share := 2 * events * SECOND;
    b * share <= duration * held && (b > 0 ==> b * share < duration * held)
  }

  lemma BurstStep(es: seq<Event>, start: int, duration: int, n: nat)
    requires n > 0
    ensures var count := InWindow(es, start + (n - 1) * SECOND, SECOND);
            && |Bursts(es, start, duration, n)| ==
               |Bursts(es, start, duration, n - 1)| + (if Bursting(count, duration, |es|) then 1 else 0)
            && Sum(WindowCounts(es, start, SECOND, n)) == Sum(WindowCounts(es, start, SECOND, n - 1)) + count
  {
    SumSnoc(WindowCounts(es, start, SECOND, n - 1), InWindow(es, start + (n - 1) * SECOND, SECOND));
  }

  lemma SumSnoc(s: seq<nat>, x: nat)
    ensures Sum(s + [x]) == Sum(s) + x
  {
    assert (s + [x])[..|s|] == s;
  }

  /** Each burst holds more than twice its share, so all of them together do. */
  lemma {:induction false} BurstsHoldMuch(es: seq<Event>, start: int, duration: nat, n: nat)
    ensures HoldMuch(|Bursts(es, start, duration, n)|, |es|, duration, Sum(WindowCounts(es, start, SECOND, n)))
  {
    if n > 0 {
      BurstsHoldMuch(es, start, duration, n - 1);
      BurstStep(es, start, duration, n);
      var held, count := Sum(WindowCounts(es, start, SECOND, n - 1)), InWindow(es, start + (n - 1) * SECOND, SECOND);
      var before := |Bursts(es, start, duration, n - 1)|;
      HoldStep(before, |es|, duration, held, count);
      assert |Bursts(es, start, duration, n)| == if Bursting(count, duration, |es|) then before + 1 else before;
    }
  }

  lemma FewBursts(b: nat, events: nat, held: nat, duration: nat)
    requires events > 0 && held <= events && b * (2 * events * SECOND) < duration * held
    ensures 2 * b * SECOND < duration
  {
    assert b * (2 * events * SECOND) == (2 * b * SECOND) * events;
    MultiplyBoth(held, events, duration);
    if duration <= 2 * b * SECOND {
      MultiplyBoth(duration, 2 * b * SECOND, events);
    }
  }

  /** At most half of the windows can burst. */
  lemma BurstBound(es: seq<Event>, start: int, duration: nat)
    requires es != []
    ensures 2 * |Bursts(es, start, duration, NumWindows(duration))| <= NumWindows(duration)
  {
    var n := NumWindows(duration);
    var b, held := |Bursts(es, start, duration, n)|, Sum(WindowCounts(es, start, SECOND, n));
    BurstsHoldMuch(es, start, duration, n);
    WindowsCountExactly(es, start, SECOND, n);
    if b > 0 {
      FewBursts(b, |es|, held, duration);
    }
  }

  /** Windows one after the other, the last of them over by `end`. */
  ghost predicate InOrder(bursts: seq<Burst>, end: int) {
    && (forall i :: 0 <= i < |bursts| ==> bursts[i].time + SECOND <= end)
    && (forall i, j :: 0 <= i < j < |bursts| ==> bursts[i].time + SECOND <= bursts[j].time)
  }

  lemma InOrderSnoc(bursts: seq<Burst>, more: seq<Burst>, end: int)
    requires InOrder(bursts, end) && |more| <= 1 && forall b :: b in more ==> b.time == end
    ensures InOrder(bursts + more, end + SECOND)
  {
  }

  lemma NextBurst(es: seq<Event>, start: int, duration: int, n: nat) returns (more: seq<Burst>)
    requires n > 0
    ensures Bursts(es, start, duration, n) == Bursts(es, start, duration, n - 1) + more
    ensures |more| <= 1 && forall b :: b in more ==> b.time == start + (n - 1) * SECOND
  {
    var time := start + (n - 1) * SECOND;
    var count := InWindow(es, time, SECOND);
    more := if Bursting(count, duration, |es|) then [Burst(time, count)] else [];
  }

  /** Bursts are listed in time order, one second apart at least. */
  lemma {:induction false} BurstsInOrder(es: seq<Event>, start: int, duration: int, n: nat)
    ensures InOrder(Bursts(es, start, duration, n), start + n * SECOND)
  {
    if n > 0 {
      BurstsInOrder(es, start, duration, n - 1);
      var more := NextBurst(es, start, duration, n);
      InOrderSnoc(Bursts(es, start, duration, n - 1), more, start + (n - 1) * SECOND);
    }
  }

  // ----- connection patterns

  datatype Pattern = Steady | Bursty | Sporadic

  function WindowWidth(duration: int): (width: int)
    ensures width >= TENTH
  {
    var tenth := if duration >= 0 then duration / 10 else -((-duration) / 10);
    if tenth < TENTH then TENTH else tenth
  }

  function SumOfSquares(s: seq<nat>): nat {
    if s == [] then 0 else SumOfSquares(s[..|s| - 1]) + s[|s| - 1] * s[|s| - 1]
  }

  /** n*n times the variance of n counts, as an integer. */
  function ScaledVariance(counts: seq<nat>): int {
    |counts| * SumOfSquares(counts) - Sum(counts) * Sum(counts)
  }

  /** variance > mean/2, variance < mean/10, or neither; no window at all makes the mean undefined, and
      then both comparisons fail. */
  function Classify(counts: seq<nat>): Pattern {
    if 2 * ScaledVariance(counts) > Sum(counts) * |counts| then Bursty
    else if 10 * ScaledVariance(counts) < Sum(counts) * |counts| then Steady
    else Sporadic
  }

  ghost function Mean(counts: seq<nat>): real
    requires counts != []
  {
    Sum(counts) as real / |counts| as real
  }

  /** The mean of the squares less the square of the mean. */
  ghost function Variance(counts: seq<nat>): real
    requires counts != []
  {
    SumOfSquares(counts) as real / |counts| as real - Mean(counts) * Mean(counts)
  }

  /** Bursty is a variance above half the mean, and steady one below a tenth of it. */
  lemma ClassifyExactly(counts: seq<nat>)
    requires counts != []
    ensures Classify(counts) == Bursty <==> Variance(counts) > Mean(counts) * 0.5
    ensures Classify(counts) == Steady <==>
              Variance(counts) <= Mean(counts) * 0.5 && Variance(counts) < Mean(counts) * 0.1
  {
    var n, sum, squares := |counts|, Sum(counts), SumOfSquares(counts);
    MomentsInReals(n, sum, squares);
    Thresholds(n as real, sum as real, squares as real, Mean(counts), Variance(counts));
  }

  /** The comparisons of Classify, for numbers in place of the sums. */
  lemma MomentsInReals(n: int, sum: int, squares: int)
    ensures 2 * (n * squares - sum * sum) > sum * n <==>
            2.0 * Spread(n as real, sum as real, squares as real) > sum as real * n as real
    ensures 10 * (n * squares - sum * sum) < sum * n <==>
            10.0 * Spread(n as real, sum as real, squares as real) < sum as real * n as real
  {
    RealProduct(n, squares);
    RealProduct(sum, sum);
    RealProduct(sum, n);
    CompareInReals(n * squares, sum * sum, sum * n);
  }

  ghost function Spread(n: real, sum: real, squares: real): real {
    n * squares - sum * sum
  }

  lemma CompareInReals(a: int, b: int, c: int)
    ensures 2 * (a - b) > c <==> 2.0 * (a as real - b as real) > c as real
    ensures 10 * (a - b) < c <==> 10.0 * (a as real - b as real) < c as real
  {
  }

  lemma Thresholds(n: real, sum: real, squares: real, mean: real, variance: real)
    requires n > 0.0 && mean == sum / n && variance == squares / n - mean * mean
    ensures 2.0 * Spread(n, sum, squares) > sum * n <==> variance > mean * 0.5
    ensures 10.0 * Spread(n, sum, squares) < sum * n <==> variance < mean * 0.1
  {
    ScaleMoments(n, sum, squares, mean, variance);
    ScaleThresholds(n, mean, variance, sum * n, Spread(n, sum, squares));
  }

  lemma ScaleThresholds(n: real, mean: real, variance: real, scaledMean: real, scaledVariance: real)
    requires n > 0.0 && n * (n * mean) == scaledMean && n * (n * variance) == scaledVariance
    ensures 2.0 * scaledVariance > scaledMean <==> variance > mean * 0.5
    ensures 10.0 * scaledVariance < scaledMean <==> variance < mean * 0.1
  {
    ScaleFactor(n, 2.0, variance, scaledVariance);
    ScaleFactor(n, 10.0, variance, scaledVariance);
    ScaleTwice(n, 2.0 * variance, mean, 2.0 * scaledVariance, scaledMean);
    ScaleTwice(n, mean, 10.0 * variance, scaledMean, 10.0 * scaledVariance);
  }

  lemma ScaleFactor(n: real, c: real, x: real, scaled: real)
    requires n * (n * x) == scaled
    ensures n * (n * (c * x)) == c * scaled
  {
  }

  lemma ScaleTwice(n: real, x: real, y: real, scaledX: real, scaledY: real)
    requires n > 0.0 && n * (n * x) == scaledX && n * (n * y) == scaledY
    ensures scaledX > scaledY <==> x > y
  {
    ScaleCompare(n, n * x, n * y);
    ScaleCompare(n, x, y);
  }

  lemma ScaleMoments(n: real, sum: real, squares: real, mean: real, variance: real)
    requires n > 0.0 && mean == sum / n && variance == squares / n - mean * mean
    ensures n * (n * mean) == sum * n && n * (n * variance) == Spread(n, sum, squares)
  {
    var q := squares / n;
    assert mean * n == sum && q * n == squares;
    assert n * (n * mean) == n * (mean * n);
    assert n * (n * q) == n * (q * n);
    assert n * (n * (mean * mean)) == (mean * n) * (mean * n);
    assert n * (n * variance) == n * (n * q) - n * (n * (mean * mean));
  }

  lemma ScaleCompare(k: real, x: real, y: real)
    requires k > 0.0
    ensures k * x > k * y <==> x > y
  {
    if x > y {
      assert k * (x - y) > 0.0;
    } else {
      assert k * (y - x) >= 0.0;
    }
  }

  /** A window is a tenth of the period in whole nanoseconds, but at least 100 ms. */
  lemma WindowWidthExactly(duration: int)
    ensures var width := WindowWidth(duration);
            if duration < 1_000_000_000 then width == 100_000_000 else 10 * width <= duration < 10 * width + 10
  {
  }

  /** The windows cover the span, and the last one is needed. */
  lemma CeilingExactly(span: int, width: int)
    requires width > 0
    ensures var n := Ceiling(span, width);
            && n * width >= span
            && (n > 0 ==> (n - 1) * width < span)
  {
    if span > 0 {
      var q := (span - 1) / width;
      assert span - 1 == q * width + (span - 1) % width;
      assert (q + 1) * width == q * width + width;
    }
  }

  /** How many windows the loop makes: the duration over the width, rounded up. */
  function Ceiling(span: int, width: int): nat
    requires width > 0
  {
    if span <= 0 then 0 else (span - 1) / width + 1
  }

  lemma NextWindow(es: seq<Event>, start: int, width: int, n: nat)
    ensures WindowCounts(es, start, width, n + 1) ==
            WindowCounts(es, start, width, n) + [InWindow(es, start + n * width, width)]
    ensures (n + 1) * width == n * width + width
  {
  }

  /** The window loop. */
  method CountWindows(es: seq<Event>, startTime: int, endTime: int, width: int) returns (counts: seq<nat>)
    requires width > 0
    ensures counts == WindowCounts(es, startTime, width, Ceiling(endTime - startTime, width))
  {
    counts := [];
    var windowStart := startTime;
    ghost var n := 0;
    while windowStart < endTime
      invariant n >= 0 && windowStart == startTime + n * width
      invariant n > 0 ==> windowStart - width < endTime
      invariant counts == WindowCounts(es, startTime, width, n)
      decreases endTime - windowStart
    {
      var windowEnd := windowStart + width;
      var count := CountEvents(es, Inside(windowStart, windowEnd));
      NextWindow(es, startTime, width, n);
      counts := counts + [count];
      windowStart := windowEnd;
      n := n + 1;
    }
    StepsToCover(endTime - startTime, width, n);
  }

  lemma RateOrder(a: nat, b: nat, width: int)
    requires width > 0
    ensures PerSecond(a, width) > PerSecond(b, width) <==> a > b
  {
    var w, x, y := width as real, a as real * SECOND as real, b as real * SECOND as real;
    Quotients(x, w, y / w);
    Quotients(y, w, 0.0);
  }

  /** The peak of the rates is the rate of the peak. */
  method PeakRate(counts: seq<nat>, width: int) returns (peak: real)
    requires width > 0
    ensures peak == PerSecond(Largest(counts), width)
  {
    peak := 0.0;
    for i := 0 to |counts|
      invariant peak == PerSecond(Largest(counts[..i]), width)
    {
      NextEvent(counts, i);
      RateOrder(counts[i], Largest(counts[..i]), width);
      var rate := PerSecond(counts[i], width);
      if rate > peak {
        peak := rate;
      }
    }
    assert counts[..|counts|] == counts;
  }

  /** What the report shows of the connections; an empty period has no finite average rate. */
  datatype ConnectionPattern =
    | NoConnections
    | Connections(pattern: Pattern, avgRate: Option<real>, burstRate: real, uniqueTargets: nat)

  function AverageRate(es: seq<Event>, duration: int): Option<real> {
    if duration == 0 then None else Some(PerSecond(|es|, duration))
  }

  function DistinctTargets(es: seq<Event>): set<string> {
    set t | t in Targets(es)
  }

  function ConnectionPatternOf(es: seq<Event>, counts: seq<nat>, width: int, duration: int): ConnectionPattern
    requires width != 0
  {
    if es == [] then NoConnections
    else
      var burstRate := PerSecond(Largest(counts), width);
      Connections(Classify(counts), AverageRate(es, duration), burstRate, |DistinctTargets(es)|)
  }

  /** The named targets of some events. */
  ghost function NamedTargets(es: seq<Event>): set<string> {
    set i | 0 <= i < |es| && es[i].target !in ["", "?", "unknown", "file"] :: es[i].target
  }

  lemma {:induction false} DistinctTargetsExactly(es: seq<Event>)
    ensures DistinctTargets(es) == NamedTargets(es)
  {
    if es != [] {
      var front, e := es[..|es| - 1], es[|es| - 1];
      assert es == front + [e];
      DistinctTargetsExactly(front);
      OneMoreTarget(front, e);
      OneMoreNamed(front, e);
    }
  }

  lemma OneMoreNamed(es: seq<Event>, e: Event)
    ensures NamedTargets(es + [e]) ==
            NamedTargets(es) + if e.target in ["", "?", "unknown", "file"] then {} else {e.target}
  {
    var more := if e.target in ["", "?", "unknown", "file"] then {} else {e.target};
    assert forall i :: 0 <= i < |es| ==> (es + [e])[i] == es[i];
    assert (es + [e])[|es|] == e;
    forall t | t in NamedTargets(es) + more
      ensures t in NamedTargets(es + [e])
    {
      if t in NamedTargets(es) {
        var i :| 0 <= i < |es| && es[i].target !in ["", "?", "unknown", "file"] && es[i].target == t;
        assert (es + [e])[i].target == t;
      }
    }
  }

  /** What the report says of the connections of a period. */
  lemma PatternFigures(es: seq<Event>, counts: seq<nat>, width: int, duration: int)
    requires width > 0 && es != []
    ensures var r := ConnectionPatternOf(es, counts, width, duration);
            && r.Connections? && r.pattern == Classify(counts)
            && (r.avgRate.None? <==> duration == 0)
            && (duration != 0 ==> IsRate(r.avgRate.value, |es|, duration))
            && IsRate(r.burstRate, Largest(counts), width)
            && r.uniqueTargets == |NamedTargets(es)|
  {
    if duration != 0 {
      PerSecondExactly(|es|, duration);
    }
    PerSecondExactly(Largest(counts), width);
    DistinctTargetsExactly(es);
  }

  method AnalyzeConnectionPattern(es: seq<Event>, startTime: int, endTime: int, duration: int)
    returns (r: ConnectionPattern)
    ensures var width := WindowWidth(duration);
            var counts := WindowCounts(es, startTime, width, Ceiling(endTime - startTime, width));
            r == ConnectionPatternOf(es, counts, width, duration)
  {
    if |es| == 0 {
      return NoConnections;
    }
    var avgRate := AverageRate(es, duration);
    var width := WindowWidth(duration);
    var windowCounts := CountWindows(es, startTime, endTime, width);
    var sum, sumSq := SumBoth(windowCounts);
    var n := |windowCounts|;
    var variance := n * sumSq - sum * sum;
    var pattern := Steady;
    if 2 * variance > sum * n {
      pattern := Bursty;
    } else if 10 * variance < sum * n {
      pattern := Steady;
    } else {
      pattern := Sporadic;
    }
    var peakRate := PeakRate(windowCounts, width);
    var uniqueTargets := CountTargets(es);
    r := Connections(pattern, avgRate, peakRate, uniqueTargets);
  }

  method SumBoth(counts: seq<nat>) returns (sum: nat, sumSq: nat)
    ensures sum == Sum(counts) && sumSq == SumOfSquares(counts)
  {
    sum, sumSq := 0, 0;
    for i := 0 to |counts|
      invariant sum == Sum(counts[..i]) && sumSq == SumOfSquares(counts[..i])
    {
      NextEvent(counts, i);
      sum := sum + counts[i];
      sumSq := sumSq + counts[i] * counts[i];
    }
    assert counts[..|counts|] == counts;
  }

  lemma OneMoreTarget(es: seq<Event>, e: Event)
    ensures DistinctTargets(es + [e]) == DistinctTargets(es) + if HasName(e) then {e.target} else {}
  {
    assert (es + [e])[..|es|] == es;
  }

  method CountTargets(es: seq<Event>) returns (n: nat)
    ensures n == |DistinctTargets(es)|
  {
    var targets: set<string> := {};
    for i := 0 to |es|
      invariant targets == DistinctTargets(es[..i])
    {
      NextEvent(es, i);
      OneMoreTarget(es[..i], es[i]);
      if HasName(es[i]) {
        targets := targets + {es[i].target};
      }
    }
    assert es[..|es|] == es;
    n := |targets|;
  }

  lemma StepsToCover(span: int, width: int, n: nat)
    requires width > 0 && n * width >= span
    requires n > 0 ==> n * width - width < span
    ensures n == Ceiling(span, width)
  {
    if n == 0 {
    } else {
      assert (n - 1) * width == n * width - width;
      DivideBetween(span - 1, width, n - 1);
    }
  }

  /** Over the whole collection period the loop makes at most eleven windows. */
  lemma AtMostElevenWindows(duration: nat)
    ensures Ceiling(duration, WindowWidth(duration)) <= 11
  {
    var width := WindowWidth(duration);
    assert duration <= 10 * width + 9;
    if duration > 0 {
      TenTimes(duration - 1, width);
    }
  }

  lemma TenTimes(x: nat, width: nat)
    requires width > 9 && x < 10 * width + 9
    ensures x / width <= 10
  {
    var q := x / width;
    assert x == q * width + x % width;
    if q > 10 {
      MultiplyBoth(11, q, width);
    }
  }

  // ----- variance

  function SquaredDistance(s: seq<nat>, x: nat): nat {
    if s == [] then 0
    else
      var d := s[|s| - 1] - x;
      assert d * d >= 0;
      SquaredDistance(s[..|s| - 1], x) + d * d
  }

  lemma ExpandSquare(d: int, q: int, n: int, sum: int, x: int, y: int)
    requires d == q + n * (x * x) - 2 * x * sum
    ensures d + (y - x) * (y - x) == (q + y * y) + (n + 1) * (x * x) - 2 * x * (sum + y)
  {
  }

  lemma {:induction false} SquaredDistanceExpands(s: seq<nat>, x: nat)
    ensures SquaredDistance(s, x) == SumOfSquares(s) + |s| * (x * x) - 2 * x * Sum(s)
  {
    if s != [] {
      var front, y := s[..|s| - 1], s[|s| - 1];
      SquaredDistanceExpands(front, x);
      ExpandSquare(SquaredDistance(front, x), SumOfSquares(front), |front|, Sum(front), x, y);
    }
  }

  lemma {:induction false} ZeroDistance(s: seq<nat>, x: nat)
    ensures SquaredDistance(s, x) == 0 <==> forall i :: 0 <= i < |s| ==> s[i] == x
  {
    if s != [] {
      var front, y := s[..|s| - 1], s[|s| - 1];
      ZeroDistance(front, x);
      ZeroSquare(y - x);
      assert forall i :: 0 <= i < |front| ==> front[i] == s[i];
    }
  }

  lemma ZeroSquare(d: int)
    ensures d * d >= 0
    ensures d * d == 0 <==> d == 0
  {
  }

  lemma ExpandVariance(n: int, q: int, sum: int, x: int)
    ensures (n + 1) * (q + x * x) - (sum + x) * (sum + x) == n * q - sum * sum + (q + n * (x * x) - 2 * x * sum)
  {
  }

  lemma VarianceSnoc(s: seq<nat>, x: nat)
    ensures ScaledVariance(s + [x]) == ScaledVariance(s) + SquaredDistance(s, x)
  {
    assert (s + [x])[..|s|] == s;
    SquaredDistanceExpands(s, x);
    ExpandVariance(|s|, SumOfSquares(s), Sum(s), x);
  }

  ghost predicate AllEqual(s: seq<nat>) {
    forall i, j :: 0 <= i < |s| && 0 <= j < |s| ==> s[i] == s[j]
  }

  /** The variance the code computes is never negative, and zero exactly when all counts are equal. */
  lemma {:induction false} VarianceZeroIffEqual(s: seq<nat>)
    ensures ScaledVariance(s) >= 0
    ensures ScaledVariance(s) == 0 <==> AllEqual(s)
  {
    if s != [] {
      var front, x := s[..|s| - 1], s[|s| - 1];
      assert s == front + [x];
      VarianceZeroIffEqual(front);
      VarianceSnoc(front, x);
      ZeroDistance(front, x);
      if AllEqual(s) {
        assert forall i :: 0 <= i < |front| ==> front[i] == s[i] == x;
      }
      if ScaledVariance(s) == 0 {
        assert forall i :: 0 <= i < |s| ==> s[i] == x;
      }
    }
  }

  lemma {:induction false} ZeroSum(s: seq<nat>)
    ensures Sum(s) == 0 <==> forall i :: 0 <= i < |s| ==> s[i] == 0
  {
    if s != [] {
      var front := s[..|s| - 1];
      ZeroSum(front);
      assert forall i :: 0 <= i < |front| ==> front[i] == s[i];
    }
  }

  /** Equal counts are steady exactly when they are positive; when every window is empty, or there is
      no window, the pattern is sporadic. */
  lemma EqualCountsPattern(counts: seq<nat>)
    requires AllEqual(counts)
    ensures Classify(counts) == if counts != [] && counts[0] > 0 then Steady else Sporadic
  {
    VarianceZeroIffEqual(counts);
    ZeroSum(counts);
    if counts != [] && counts[0] > 0 {
      assert Sum(counts) * |counts| > 0;
    }
  }
}
