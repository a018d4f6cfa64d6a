/** The activity timeline: five buckets over the collection period. */
module Timeline {
  import opened Numbers
  import opened Events
  import opened Diagnosis

  const MIN_I64: i64 := -0x8000_0000_0000_0000
  const MAX_I64: i64 := 0x7fff_ffff_ffff_ffff

  function Magnitude(x: int): nat {
    if x < 0 then -x else x
  }

  lemma QuotientShrinks(a: nat, b: nat)
    requires b > 0
    ensures a / b <= a
    ensures b > 1 && a > 0 ==> a / b < a
  {
    var q := a / b;
    assert a == q * b + a % b;
    MultiplyBoth(1, b, q);
    if b > 1 {
      MultiplyBoth(2, b, q);
    }
  }

  /** Go's integer division: truncated, with the one overflowing quotient wrapping round. */
  function Quotient(x: i64, y: i64): i64
    requires y != 0
  {
    var q := Magnitude(x) / Magnitude(y);
    QuotientShrinks(Magnitude(x), Magnitude(y));
    if x == MIN_I64 && y == -1 then MIN_I64
    else if (x < 0) == (y < 0) then q
    else -q
  }

  /** Division truncates: the remainder has the sign of the dividend and is smaller than the divisor. Only
      the least number over -1 does not fit, and stays as it is. */
  lemma QuotientExactly(x: i64, y: i64)
    requires y != 0
    ensures var r := x - Quotient(x, y) * y;
            if x == -0x8000_0000_0000_0000 && y == -1 then Quotient(x, y) == x
            else Magnitude(r) < Magnitude(y) && (r == 0 || (r < 0 <==> x < 0))
  {
    var q, rest := WholePart(Magnitude(x), Magnitude(y));
    SignedRemainder(x, y, q, rest);
    if !(x == MIN_I64 && y == -1) {
      var s: int := if (x < 0) == (y < 0) then q else -q;
      assert Quotient(x, y) == s;
    }
  }

  lemma WholePart(a: nat, b: nat) returns (q: int, rest: nat)
    requires b > 0
    ensures q == a / b >= 0 && a == q * b + rest && rest < b
  {
    q, rest := a / b, a % b;
  }

  lemma SignedRemainder(x: int, y: int, q: int, rest: nat)
    requires y != 0 && q >= 0 && Magnitude(x) == q * Magnitude(y) + rest && rest < Magnitude(y)
    ensures var r := x - (if (x < 0) == (y < 0) then q else -q) * y;
            Magnitude(r) == rest && (r == 0 || (r < 0 <==> x < 0))
  {
    SignedProducts(q, Magnitude(y));
  }

  lemma SignedProducts(q: int, b: int)
    ensures (-q) * (-b) == q * b && (-q) * b == -(q * b) && q * (-b) == -(q * b)
  {
  }

  /** time.Time.Sub, which saturates. */
  function Elapsed(time: int, start: int): i64 {
    if time - start < MIN_I64 then MIN_I64
    else if time - start > MAX_I64 then MAX_I64
    else time - start
  }

  /** The difference, or the nearest one that fits 64 bits. */
  lemma ElapsedExactly(time: int, start: int)
    ensures MIN_I64 <= time - start <= MAX_I64 ==> Elapsed(time, start) == time - start
    ensures time - start < MIN_I64 ==> Elapsed(time, start) == -0x8000_0000_0000_0000
    ensures time - start > MAX_I64 ==> Elapsed(time, start) == 0x7fff_ffff_ffff_ffff
  {
  }

  function Clamp(index: int): (b: nat)
    ensures b < 5
  {
    if index >= 5 then 4 else if index < 0 then 0 else index
  }

  function BucketOf(time: int, start: int, width: i64): (b: nat)
    requires width != 0
    ensures b < 5
  {
    Clamp(Quotient(Elapsed(time, start), width))
  }

  function InBucket(b: nat, start: int, width: i64): Event -> bool
    requires width != 0
  {
    (e: Event) => BucketOf(EventTime(e), start, width) == b
  }

  datatype Outcome = NoEvents | DividesByZero | Buckets(counts: seq<nat>, percentages: seq<real>)

  /** A period shorter than five nanoseconds gives an empty bucket width, and Go panics on the division. */
  method AnalyzeTimeline(es: seq<Event>, startTime: int, duration: i64) returns (r: Outcome)
    ensures var width := Quotient(duration, 5);
            if es == [] then r == NoEvents
            else if -5 < duration < 5 then r == DividesByZero
            else
              && r.Buckets? && |r.counts| == |r.percentages| == 5 && width != 0
              && (forall b :: 0 <= b < 5 ==> r.counts[b] == CountIf(es, InBucket(b, startTime, width)))
              && (forall b :: 0 <= b < 5 ==> r.percentages[b] == Percent(r.counts[b], |es|))
  {
    if |es| == 0 {
      return NoEvents;
    }
    var width := Quotient(duration, 5);
    if width == 0 {
      return DividesByZero;
    }
    var buckets := new nat[5](_ => 0);
    for i := 0 to |es|
      invariant forall b :: 0 <= b < 5 ==> buckets[b] == CountIf(es[..i], InBucket(b, startTime, width))
    {
      var elapsed := Elapsed(EventTime(es[i]), startTime);
      var index: int := Quotient(elapsed, width);
      if index >= 5 {
        index := 4;
      }
      if index < 0 {
        index := 0;
      }
      BucketsStep(es, i, startTime, width);
      buckets[index] := buckets[index] + 1;
    }
    assert es[..|es|] == es;
    var counts := buckets[..];
    r := Buckets(counts, seq(5, b requires 0 <= b < 5 => Percent(counts[b], |es|)));
  }

  lemma BucketsStep(es: seq<Event>, i: nat, start: int, width: i64)
    requires i < |es| && width != 0
    ensures forall b :: 0 <= b < 5 ==>
              CountIf(es[..i + 1], InBucket(b, start, width)) ==
              CountIf(es[..i], InBucket(b, start, width)) +
              if BucketOf(EventTime(es[i]), start, width) == b then 1 else 0
  {
    forall b | 0 <= b < 5
      ensures CountIf(es[..i + 1], InBucket(b, start, width)) ==
              CountIf(es[..i], InBucket(b, start, width)) +
              if BucketOf(EventTime(es[i]), start, width) == b then 1 else 0
    {
      NextEvent(es, i);
      FilterSnoc(es[..i], es[i], InBucket(b, start, width));
    }
  }

  /** Every event is counted once: the five counts add up to the number of events, whatever the period. */
  lemma {:induction false} TimelineAddsUp(es: seq<Event>, start: int, width: i64)
    requires width != 0
    ensures CountIf(es, InBucket(0, start, width)) + CountIf(es, InBucket(1, start, width))
            + CountIf(es, InBucket(2, start, width)) + CountIf(es, InBucket(3, start, width))
            + CountIf(es, InBucket(4, start, width)) == |es|
  {
    if es != [] {
      var n := |es| - 1;
      TimelineAddsUp(es[..n], start, width);
      BucketsStep(es, n, start, width);
      assert es[..n + 1] == es;
    }
  }

  /** And so the five percentages add up to 100. */
  lemma PercentagesAddUp(es: seq<Event>, start: int, width: i64)
    requires es != [] && width != 0
    ensures var counts := seq(5, b requires 0 <= b < 5 => CountIf(es, InBucket(b, start, width)));
            Percent(counts[0], |es|) + Percent(counts[1], |es|) + Percent(counts[2], |es|)
            + Percent(counts[3], |es|) + Percent(counts[4], |es|) == 100.0
  {
    TimelineAddsUp(es, start, width);
    var counts := seq(5, b requires 0 <= b < 5 => CountIf(es, InBucket(b, start, width)));
    PercentAdds(counts[0], counts[1], |es|);
    PercentAdds(counts[0] + counts[1], counts[2], |es|);
    PercentAdds(counts[0] + counts[1] + counts[2], counts[3], |es|);
    PercentAdds(counts[0] + counts[1] + counts[2] + counts[3], counts[4], |es|);
    FullPercent(|es|);
  }

  lemma DivideAtLeast(x: nat, width: nat, k: nat)
    requires width > 0 && k <= 5
    ensures x / width >= k <==> x >= k * width
  {
    var q := x / width;
    assert x == q * width + x % width;
    if q >= k {
      MultiplyBoth(k, q, width);
    } else {
      MultiplyBoth(q + 1, k, width);
    }
  }

  /** The bucket of an event after the start of the period. */
  lemma BucketAfterStart(elapsed: nat, width: nat, b: nat)
    requires width > 0 && b < 5
    ensures Clamp(elapsed / width) == b <==>
            (b == 0 || b * width <= elapsed) && (b == 4 || elapsed < (b + 1) * width)
  {
    DivideAtLeast(elapsed, width, b);
    DivideAtLeast(elapsed, width, b + 1);
  }

  lemma BucketBeforeStart(before: int, width: int, b: nat)
    requires before > 0 && width > 0 && b < 5
    ensures Clamp(-(before / width)) == 0
    ensures 0 <= b * width && -before < (b + 1) * width
    ensures b > 0 ==> -before < b * width
  {
    MultiplyBoth(0, b, width);
    MultiplyBoth(1, b + 1, width);
  }

  lemma BucketOfElapsed(elapsed: i64, width: i64, b: nat)
    requires width > 0 && b < 5
    ensures Clamp(Quotient(elapsed, width)) == b <==>
            (b == 0 || b * width <= elapsed) && (b == 4 || elapsed < (b + 1) * width)
  {
    if elapsed >= 0 {
      BucketAfterStart(elapsed, width, b);
    } else {
      var before: int := elapsed;
      BucketBeforeStart(-before, width, b);
    }
  }

  /** Bucket b of a period is the half-open interval [b, b+1) widths after its start; the first and the
      last bucket also take what lies before and after the period. */
  lemma BucketIsInterval(time: int, start: int, duration: i64, b: nat)
    requires duration >= 5 && b < 5
    ensures var width := Quotient(duration, 5);
            && width > 0
            && (BucketOf(time, start, width) == b <==>
                  (b == 0 || start + b * width <= time) && (b == 4 || time < start + (b + 1) * width))
  {
    var width := Quotient(duration, 5);
    BucketOfElapsed(Elapsed(time, start), width, b);
    MultiplyBoth(0, b, width);
    MultiplyBoth(b + 1, 5, width);
  }

  /** Later events never fall into an earlier bucket. */
  lemma BucketsMonotone(time: int, later: int, start: int, duration: i64)
    requires duration >= 5 && time <= later
    ensures BucketOf(time, start, Quotient(duration, 5)) <= BucketOf(later, start, Quotient(duration, 5))
  {
    var width := Quotient(duration, 5);
    var b := BucketOf(time, start, width);
    var c := BucketOf(later, start, width);
    BucketIsInterval(time, start, duration, b);
    BucketIsInterval(later, start, duration, c);
    if c < b {
      MultiplyBoth(c + 1, b, width);
    }
  }
}
