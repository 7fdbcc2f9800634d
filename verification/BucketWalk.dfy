/** The range bucket walk: a window is cut into whole steps from a floored start, and the merged rows,
fetched once in time order, are sliced bucket by bucket. Instants are 64-bit and additions wrap. */
module BucketWalk {
  import opened Basics

  const MAX_BUCKETS: int := 10_000
  const DEFAULT_BUCKETS: int := 240

  datatype Window = Window(from: int64, to: int64)

  // ------------------------------------------------------------------ the ceiling

  /** Exact: it is computed in 64 unsigned bits. */
  function Width(from: int, to: int): nat {
    if to <= from then 0 else to - from
  }

  /** The product with n, saturated. */
  function Scale(step: int64, n: int): int64
    requires step > 0 && n > 0
  {
    if step > MAX64 / n then MAX64 else assert step * n <= MAX64 by { ScaleFits(step, n); } step * n
  }

  lemma ScaleFits(step: int, n: int)
    requires step > 0 && n > 0 && step <= MAX64 / n
    ensures 0 < step * n <= MAX64
  {
    assert step * n <= MAX64 / n * n;
    assert MAX64 / n * n <= MAX64;
  }

  lemma ScaleMeans(step: int64, n: int)
    requires step > 0 && n > 0
    ensures Scale(step, n) == Min(step * n, MAX64) && Scale(step, n) / step <= n
  {
    if step > MAX64 / n { PastQuotient(MAX64, step, n); } else { ScaleFits(step, n); }
    QuotientAtMost(Scale(step, n), step, n);
  }

  lemma PastQuotient(m: nat, step: int, n: int)
    requires n > 0 && step > m / n
    ensures m < step * n
  {
    var q := m / n;
    assert m == q * n + m % n;
    MulMono(q + 1, step, n);
    assert (q + 1) * n == q * n + n;
  }

  lemma QuotientAtMost(m: nat, step: int, n: int)
    requires step > 0 && m <= step * n
    ensures m / step <= n
  {
    var q := m / step;
    assert m == q * step + m % step;
    assert (n + 1) * step == step * n + step;
    if q > n { MulMono(n + 1, q, step); }
  }

  /** The step of a request that names none, or a non-positive one: a thirtieth of the window. */
  function RangeStep(from: int64, to: int64): (step: int64)
    ensures step > 0
  {
    var w := Width(from, to);
    if w == 0 then MINUTE else if w / 30 > 0 then w / 30 else w
  }

  const MINUTE: int64 := 60_000_000_000

  function StepOf(from: int64, to: int64, step: int64): (s: int64)
    ensures s > 0
  {
    if step <= 0 then RangeStep(from, to) else step
  }

  /** A named step is taken as it is. Without one a window is cut into one bucket or thirty to fifty-nine
      whole ones, so it is never too wide. */
  lemma DefaultStepFits(from: int64, to: int64, step: int64)
    ensures step > 0 ==> StepOf(from, to, step) == step
    ensures step <= 0 && to <= from ==> StepOf(from, to, step) == 60 * 1_000_000_000
    ensures step <= 0 && from < to ==>
              var n := (to - from) / StepOf(from, to, step);
              n == 1 || 30 <= n < 60
    ensures step <= 0 ==> !TooWide(from, to, StepOf(from, to, step))
  {
    var w := Width(from, to);
    if w >= 30 {
      var s := w / 30;
      assert 30 * s <= w < 30 * s + 30 <= 60 * s;
      QuotientAtMost(w, s, 60);
      QuotientIs(w, s);
    }
  }

  lemma QuotientIs(w: nat, s: nat)
    requires 0 < s && 30 * s <= w < 60 * s
    ensures 30 <= w / s < 60
  {
    var q := w / s;
    assert w == q * s + w % s;
    if q < 30 { MulMono(q + 1, 30, s); }
    if q >= 60 { MulMono(60, q, s); }
    assert (q + 1) * s == q * s + s;
  }

  predicate TooWide(from: int64, to: int64, step: int64)
    requires step > 0
  {
    Width(from, to) / step > MAX_BUCKETS
  }

  /** Too wide is a window that holds more whole steps than the ceiling. */
  lemma TooWideExactly(from: int64, to: int64, step: int64)
    requires step > 0
    ensures TooWide(from, to, step) <==> to - from >= 10_001 * step
    ensures to - from >= 10_001 * step <==> Width(from, to) / step > MAX_BUCKETS
  {
    var w := Width(from, to);
    var q := w / step;
    assert w == q * step + w % step;
    if q > MAX_BUCKETS { MulMono(10_001, q, step); } else { MulMono(q + 1, 10_001, step); }
    assert (q + 1) * step == q * step + step;
  }

  /** A window the ceiling admits is left alone. One too wide is refused if the caller named it, and
      otherwise becomes the last 240 steps before now, or as many as 64 bits reach back; it is never
      refused, and where its start would leave the domain, before 1970, it wraps and the window is empty.
      What is accepted always has at most the ceiling's number of whole steps. */
  method BoundRangeBuckets(from: int64, to: int64, asked: int64, explicit: bool, now: int64) returns (r: Option<Window>)
    ensures var step := StepOf(from, to, asked);
            var back := Min(step * DEFAULT_BUCKETS, MAX64);
            && (to - from < 10_001 * step ==> r == Some(Window(from, to)))
            && (to - from >= 10_001 * step && explicit ==> r == None)
            && (to - from >= 10_001 * step && !explicit ==>
                  && r.Some? && r.value.to == now
                  && (if now - back >= MIN64 then r.value.from == now - back else r.value.from > now))
            && (r.Some? ==> r.value.to - r.value.from < 10_001 * step)
  {
    var step := StepOf(from, to, asked);
    TooWideExactly(from, to, step);
    var f, t := from, to;
    if !explicit && Width(from, to) / step > MAX_BUCKETS {
      t := now;
      ScaleMeans(step, DEFAULT_BUCKETS);
      BackFrom(now, Scale(step, DEFAULT_BUCKETS));
      f := Wrap64(now - Scale(step, DEFAULT_BUCKETS));
    }
    TooWideExactly(f, t, step);
    if Width(f, t) / step > MAX_BUCKETS { return None; }
    return Some(Window(f, t));
  }

  lemma BackFrom(now: int64, back: int64)
    requires back >= 0
    ensures if now - back >= MIN64 then Wrap64(now - back) == now - back else Wrap64(now - back) > now
  {
    if now - back >= MIN64 { WrapFits(now - back); } else { WrapBelow(now - back); }
  }

  // ------------------------------------------------------------------ the walk

  /** Floored to a multiple of step; at the bottom of the domain, the smallest multiple there is. The
      source's remainder truncates and is corrected, which is this remainder. */
  function AlignDown(t: int64, step: int64): int64
    requires step > 0
  {
    var r := t % step;
    if Wrap64(t - r) > t then LowestMultiple(step) else Wrap64(t - r)
  }

  /** MinInt64 divided by step, truncated towards zero, times step. */
  function LowestMultiple(step: int64): int64
    requires step > 0
  {
    LowestFits(step);
    -((-MIN64) / step * step)
  }

  lemma LowestFits(step: int)
    requires step > 0
    ensures 0 <= (-MIN64) / step * step <= -MIN64
    ensures (-MIN64) / step * step > -MIN64 - step
  {
    assert -MIN64 == (-MIN64) / step * step + (-MIN64) % step;
  }

  /** Floored to a multiple, within one step; or the floor left the domain and the lowest multiple,
      which is above t, stands in. */
  lemma AlignDownRight(t: int64, step: int64)
    requires step > 0
    ensures var a := AlignDown(t, step);
            if t - t % step >= MIN64 then (a == t - t % step && a <= t < a + step)
            else (a == LowestMultiple(step) && t < a < t + step)
  {
    var r := t % step;
    if t - r >= MIN64 {
      WrapFits(t - r);
    } else {
      WrapBelow(t - r);
      LowestFits(step);
      BottomGap(t, step);
    }
  }

  /** A floor below the domain leaves the next multiple as the lowest in it. */
  lemma BottomGap(t: int, step: int)
    requires step > 0 && MIN64 <= t <= MAX64 && t - t % step < MIN64
    ensures t < -((-MIN64) / step * step) < t + step
  {
    var k := (-MIN64) / step;
    LowestFits(step);
    assert -(k * step) >= MIN64 && -(k * step) < MIN64 + step;
    var q := t / step;
    assert t == q * step + t % step;
    assert q * step < MIN64 <= -(k * step);
    MultiplesApart(q, -k, step);
    assert -k * step == -(k * step);
    assert t % step < step;
    assert t >= MIN64 > -(k * step) - step;
  }

  lemma MultiplesApart(a: int, b: int, step: int)
    requires step > 0 && a * step < b * step
    ensures a * step + step <= b * step
  {
    assert a < b by { if a >= b { MulMono(b, a, step); } }
    MulMono(a + 1, b, step);
    assert (a + 1) * step == a * step + step;
  }

  lemma MulMono(a: int, b: int, step: int)
    requires a <= b && step > 0
    ensures a * step <= b * step
  {
    assert (b - a) * step >= 0;
    assert (b - a) * step == b * step - a * step;
  }

  /** The instants the walk covers. */
  function BucketSpan(w: Window, step: int64): Window
    requires step > 0
  {
    if w.to <= w.from then w
    else
      var lo := AlignDown(w.from, step);
      var last := AlignDown(w.to - 1, step);
      var end := if Wrap64(last + step) < last then MAX64 else Wrap64(last + step);
      Window(lo, if end < w.to then w.to else end)
  }

  /** The end of the bucket starting at bs. */
  function BucketEnd(bs: int64, step: int64): int64 {
    if Wrap64(bs + step) < bs then MAX64 else Wrap64(bs + step)
  }

  lemma BucketEndRight(bs: int64, step: int64)
    requires step > 0
    ensures BucketEnd(bs, step) == Min(bs + step, MAX64)
  {
    if bs + step <= MAX64 { WrapFits(bs + step); } else { WrapAbove(bs + step); }
  }

  function Gap(bs: int, to: int): int {
    to - bs
  }

  function Max(a: int, b: int): int {
    if a > b then a else b
  }

  function Min(a: int, b: int): int {
    if a < b then a else b
  }

  /** The greatest multiple of step below `to`. */
  function LastStart(to: int, step: int): int
    requires step > 0
  {
    to - 1 - (to - 1) % step
  }

  /** The bucket starts from bs on, and where the last bucket ends. */
  function Starts(bs: int64, to: int64, step: int64): seq<int64>
    requires step > 0
    decreases Gap(bs, to)
  {
    BucketEndRight(bs, step);
    if bs >= to then [] else [bs] + Starts(BucketEnd(bs, step), to, step)
  }

  function WalkEnd(bs: int64, to: int64, step: int64): int64
    requires step > 0
    decreases Gap(bs, to)
  {
    BucketEndRight(bs, step);
    if bs >= to then bs else WalkEnd(BucketEnd(bs, step), to, step)
  }

  /** At most so many buckets. */
  lemma {:induction false} StartsCount(bs: int64, to: int64, step: int64, n: nat)
    requires step > 0 && to - bs <= n * step
    ensures |Starts(bs, to, step)| <= n
    decreases Gap(bs, to)
  {
    BucketEndRight(bs, step);
    if bs < to {
      assert n >= 1;
      assert (n - 1) * step == n * step - step;
      StartsCount(BucketEnd(bs, step), to, step, n - 1);
    }
  }

  /** The start of a window is at most one step above the floored start. */
  lemma StartNear(w: Window, step: int64)
    requires step > 0 && w.from < w.to
    ensures w.from - BucketSpan(w, step).from < step
  {
    AlignDownRight(w.from, step);
  }

  /** The walk takes at most the ceiling plus two steps, for every window the ceiling lets through,
      even when the last addition leaves the 64-bit domain. */
  lemma WalkIsBounded(w: Window, step: int64)
    requires step > 0 && Width(w.from, w.to) / step <= MAX_BUCKETS
    ensures |Starts(BucketSpan(w, step).from, w.to, step)| <= MAX_BUCKETS + 2
  {
    if w.from < w.to {
      StartNear(w, step);
      CeilingGap(w.to - w.from, step, MAX_BUCKETS);
      StartsCount(BucketSpan(w, step).from, w.to, step, MAX_BUCKETS + 2);
    }
  }

  lemma CeilingGap(width: nat, step: int, max: nat)
    requires step > 0 && width / step <= max
    ensures width + step <= (max + 2) * step
  {
    assert width == width / step * step + width % step;
    MulMono(width / step, max, step);
    assert (max + 2) * step == max * step + 2 * step;
  }

  // ------------------------------------------------------------------ slicing the rows

  predicate Sorted(times: seq<int64>) {
    forall i, j | 0 <= i < j < |times| :: times[i] <= times[j]
  }

  /** The first row at or after an instant. */
  function First(times: seq<int64>, t: int64): (k: nat)
    ensures k <= |times|
    ensures forall i | 0 <= i < k :: times[i] < t
    ensures k < |times| ==> times[k] >= t
  {
    if times == [] || times[0] >= t then 0 else 1 + First(times[1..], t)
  }

  /** Binary search, as the slices are found. */
  method Search(times: seq<int64>, t: int64) returns (k: nat)
    requires Sorted(times)
    ensures k == First(times, t)
  {
    var lo: int, hi: int := 0, |times|;
    while lo < hi
      invariant 0 <= lo <= hi <= |times|
      invariant forall i | 0 <= i < lo :: times[i] < t
      invariant forall i | hi <= i < |times| :: times[i] >= t
    {
      var mid := (lo + hi) / 2;
      if times[mid] >= t { hi := mid; } else { lo := mid + 1; }
    }
    FirstIs(times, t, lo);
    return lo;
  }

  lemma FirstIs(times: seq<int64>, t: int64, k: nat)
    requires k <= |times| && (forall i | 0 <= i < k :: times[i] < t) && (k < |times| ==> times[k] >= t)
    ensures First(times, t) == k
  {
    if k > 0 { FirstIs(times[1..], t, k - 1); }
  }

  lemma FirstMonotone(times: seq<int64>, s: int64, t: int64)
    requires Sorted(times) && s <= t
    ensures First(times, s) <= First(times, t)
  {
  }

  /** The slices of the walk, in order. */
  function Slices(times: seq<int64>, bs: int64, to: int64, step: int64): seq<seq<int64>>
    requires step > 0 && Sorted(times)
    decreases Gap(bs, to)
  {
    BucketEndRight(bs, step);
    if bs >= to then []
    else
      var be := BucketEnd(bs, step);
      FirstMonotone(times, bs, be);
      [times[First(times, bs)..First(times, be)]] + Slices(times, be, to, step)
  }

  function Flat(slices: seq<seq<int64>>): seq<int64> {
    if slices == [] then [] else slices[0] + Flat(slices[1..])
  }

  lemma {:induction false} WalkEndAfter(bs: int64, to: int64, step: int64)
    requires step > 0
    ensures bs <= WalkEnd(bs, to, step) && to <= WalkEnd(bs, to, step)
    decreases Gap(bs, to)
  {
    BucketEndRight(bs, step);
    if bs < to { WalkEndAfter(BucketEnd(bs, step), to, step); }
  }

  lemma FlatCons(slice: seq<int64>, more: seq<seq<int64>>)
    ensures Flat([slice] + more) == slice + Flat(more)
  {
    assert ([slice] + more)[1..] == more;
  }

  lemma SliceJoin(times: seq<int64>, a: nat, b: nat, c: nat)
    requires a <= b <= c <= |times|
    ensures times[a..b] + times[b..c] == times[a..c]
  {
  }

  /** One bucket of the walk. */
  lemma WalkStep(times: seq<int64>, bs: int64, to: int64, step: int64)
    requires step > 0 && Sorted(times) && bs < to
    ensures var be := BucketEnd(bs, step);
            && bs < be && First(times, bs) <= First(times, be)
            && Starts(bs, to, step) == [bs] + Starts(be, to, step)
            && WalkEnd(bs, to, step) == WalkEnd(be, to, step)
            && Slices(times, bs, to, step) == [times[First(times, bs)..First(times, be)]] + Slices(times, be, to, step)
  {
    BucketEndRight(bs, step);
    FirstMonotone(times, bs, BucketEnd(bs, step));
  }

  /** Put end to end, the slices are the rows from the first bucket's start to the last one's end: none
      lost, none twice, and in order. */
  lemma {:induction false} SlicesPartition(times: seq<int64>, bs: int64, to: int64, step: int64)
    requires step > 0 && Sorted(times)
    ensures First(times, bs) <= First(times, WalkEnd(bs, to, step))
    ensures Flat(Slices(times, bs, to, step)) == times[First(times, bs)..First(times, WalkEnd(bs, to, step))]
    ensures |Slices(times, bs, to, step)| == |Starts(bs, to, step)|
    decreases Gap(bs, to)
  {
    if bs < to {
      WalkStep(times, bs, to, step);
      var be := BucketEnd(bs, step);
      SlicesPartition(times, be, to, step);
      var a, b, c := First(times, bs), First(times, be), First(times, WalkEnd(be, to, step));
      FlatCons(times[a..b], Slices(times, be, to, step));
      SliceJoin(times, a, b, c);
    }
  }

  /** Bucket i starts i steps after the first, for as many as start before the end. */
  lemma {:induction false} StartsExactly(bs: int64, to: int64, step: int64, i: nat)
    requires step > 0
    ensures i < |Starts(bs, to, step)| <==> bs + i * step < to
    ensures i < |Starts(bs, to, step)| ==> Starts(bs, to, step)[i] == bs + i * step
    decreases i
  {
    BucketEndRight(bs, step);
    if i > 0 {
      assert i * step == (i - 1) * step + step;
      assert (i - 1) * step >= 0;
      if bs < to { StartsExactly(BucketEnd(bs, step), to, step, i - 1); }
    }
  }

  lemma CutIsBucket(times: seq<int64>, b: int64, e: int64)
    requires Sorted(times) && b <= e
    ensures First(times, b) <= First(times, e)
    ensures forall k | 0 <= k < |times| :: First(times, b) <= k < First(times, e) <==> b <= times[k] < e
  {
    FirstMonotone(times, b, e);
    forall k | 0 <= k < |times| ensures First(times, b) <= k < First(times, e) <==> b <= times[k] < e {
      if k >= First(times, b) { assert times[First(times, b)] <= times[k]; }
      if k >= First(times, e) { assert times[First(times, e)] <= times[k]; }
    }
  }

  /** Slice i holds exactly the rows of bucket i: those at or after its start and before its end. */
  lemma {:induction false} SliceIsBucket(times: seq<int64>, bs: int64, to: int64, step: int64, i: nat) returns (lo: nat, hi: nat)
    requires step > 0 && Sorted(times) && i < |Slices(times, bs, to, step)| == |Starts(bs, to, step)|
    ensures lo <= hi <= |times| && Slices(times, bs, to, step)[i] == times[lo..hi]
    ensures var b := Starts(bs, to, step)[i];
            forall k | 0 <= k < |times| :: lo <= k < hi <==> b <= times[k] < Min(b + step, MAX64)
    decreases i
  {
    WalkStep(times, bs, to, step);
    BucketEndRight(bs, step);
    var be := BucketEnd(bs, step);
    if i == 0 {
      lo, hi := First(times, bs), First(times, be);
      CutIsBucket(times, bs, be);
    } else {
      lo, hi := SliceIsBucket(times, be, to, step, i - 1);
    }
  }

  lemma Onwards<T>(done: seq<T>, x: T, more: seq<T>)
    ensures done + ([x] + more) == done + [x] + more
  {
  }

  /** The walk as it runs: one slice a bucket, until a bucket starts at or past the end. */
  method SliceBuckets(times: seq<int64>, w: Window, step: int64) returns (slices: seq<seq<int64>>, starts: seq<int64>)
    requires step > 0 && Sorted(times)
    ensures slices == Slices(times, BucketSpan(w, step).from, w.to, step)
    ensures starts == Starts(BucketSpan(w, step).from, w.to, step)
  {
    var bs: int64 := BucketSpan(w, step).from;
    slices, starts := [], [];
    while Gap(bs, w.to) > 0
      invariant slices + Slices(times, bs, w.to, step) == Slices(times, BucketSpan(w, step).from, w.to, step)
      invariant starts + Starts(bs, w.to, step) == Starts(BucketSpan(w, step).from, w.to, step)
      decreases Gap(bs, w.to)
    {
      WalkStep(times, bs, w.to, step);
      var be := BucketEnd(bs, step);
      var lo := Search(times, bs);
      var hi := Search(times, be);
      Onwards(slices, times[lo..hi], Slices(times, be, w.to, step));
      Onwards(starts, bs, Starts(be, w.to, step));
      slices, starts := slices + [times[lo..hi]], starts + [bs];
      bs := be;
    }
  }

  // ------------------------------------------------------------------ the fetched span

  /** The walk ends where the fetched span ends, so every fetched row is in a bucket. */
  lemma {:induction false} WalkEndIs(bs: int64, to: int64, step: int64, k: int)
    requires step > 0 && bs == k * step && bs < to
    ensures WalkEnd(bs, to, step) == Min(LastStart(to, step) + step, MAX64)
    decreases Gap(bs, to)
  {
    BucketEndRight(bs, step);
    var be := BucketEnd(bs, step);
    var q := (to - 1) / step;
    assert to - 1 == q * step + (to - 1) % step;
    assert (k + 1) * step == k * step + step;
    if be < to {
      WalkEndIs(be, to, step, k + 1);
    } else {
      LastBucket(k, q, step, to);
    }
  }

  /** A multiple below `to` whose successor is not is the last one. */
  lemma LastBucket(k: int, q: int, step: int, to: int)
    requires step > 0 && k * step < to && q * step <= to - 1 < q * step + step
    requires k * step + step >= to
    ensures k == q
  {
    assert (k + 1) * step == k * step + step && (q + 1) * step == q * step + step;
    if k < q {
      MulMono(k + 1, q, step);
    } else if k > q {
      MulMono(q + 1, k, step);
    }
  }

  /** The floored start is a multiple of the step. */
  lemma AlignedStart(t: int64, step: int64) returns (k: int)
    requires step > 0
    ensures AlignDown(t, step) == k * step
  {
    AlignDownRight(t, step);
    if t - t % step >= MIN64 {
      k := t / step;
    } else {
      k := -((-MIN64) / step);
    }
  }

  /** Unless the whole window lies below the lowest multiple of the step, the walk covers exactly what
      was fetched. */
  lemma SpanIsWalked(w: Window, step: int64)
    requires step > 0 && w.from < w.to && BucketSpan(w, step).from < w.to
    ensures WalkEnd(BucketSpan(w, step).from, w.to, step) == BucketSpan(w, step).to
  {
    var k := AlignedStart(w.from, step);
    WalkEndIs(BucketSpan(w, step).from, w.to, step, k);
    AlignDownRight(w.to - 1, step);
    AlignDownRight(w.from, step);
    FloorAbove(w, step);
    var last := AlignDown(w.to - 1, step);
    BucketEndRight(last, step);
  }

  /** If the floored start is below `to`, the last multiple below `to` is in the domain. */
  lemma FloorAbove(w: Window, step: int64)
    requires step > 0 && w.from < w.to && BucketSpan(w, step).from < w.to
    ensures LastStart(w.to, step) >= MIN64
  {
    var k := AlignedStart(w.from, step);
    FloorAtLeast(w.to - 1, k, step);
  }

  lemma FloorAtLeast(t: int, k: int, step: int)
    requires step > 0 && k * step <= t
    ensures k * step <= t - t % step
  {
    var q := t / step;
    assert t == q * step + t % step;
    assert (q + 1) * step == q * step + step;
    if q < k { MulMono(q + 1, k, step); }
    MulMono(k, q, step);
  }

  /** Every fetched row lands in exactly one bucket, in order, for every window that is not wholly below
      the lowest multiple of the step. */
  lemma FetchedRowsPartition(times: seq<int64>, w: Window, step: int64)
    requires step > 0 && Sorted(times) && w.from < w.to && BucketSpan(w, step).from < w.to
    requires forall i | 0 <= i < |times| :: BucketSpan(w, step).from <= times[i] < BucketSpan(w, step).to
    ensures Flat(Slices(times, BucketSpan(w, step).from, w.to, step)) == times
  {
    var span := BucketSpan(w, step);
    SpanIsWalked(w, step);
    SlicesPartition(times, span.from, w.to, step);
    assert First(times, span.from) == 0 && First(times, span.to) == |times|;
  }

  /** A window wholly below the lowest multiple has no bucket at all. */
  lemma NoBucketExactly(w: Window, step: int64)
    requires step > 0 && w.from < w.to
    ensures Starts(BucketSpan(w, step).from, w.to, step) == [] <==> w.to <= LowestMultiple(step)
  {
    AlignDownRight(w.from, step);
    var k := AlignedStart(w.from, step);
    if w.from - w.from % step >= MIN64 {
      LowestIsLowest(w.from, step);
    }
  }

  /** A multiple in the domain is at or above the lowest one. */
  lemma LowestIsLowest(t: int64, step: int64)
    requires step > 0 && t - t % step >= MIN64
    ensures LowestMultiple(step) <= t - t % step
  {
    LowestFits(step);
    var q, k := t / step, (-MIN64) / step;
    assert t == q * step + t % step;
    assert -k * step == -(k * step);
    if q * step < -k * step { MultiplesApart(q, -k, step); }
  }

  /** The walk starts at or before the window exactly when the lowest multiple does. */
  lemma StartCoveredExactly(w: Window, step: int64)
    requires step > 0 && w.from < w.to
    ensures BucketSpan(w, step).from <= w.from <==> LowestMultiple(step) <= w.from
  {
    AlignDownRight(w.from, step);
    if w.from - w.from % step >= MIN64 { LowestIsLowest(w.from, step); }
  }

  lemma AllBefore(times: seq<int64>, t: int64)
    requires forall i | 0 <= i < |times| :: times[i] < t
    ensures First(times, t) == |times|
  {
    FirstIs(times, t, |times|);
  }

  lemma SlicesFrom(times: seq<int64>, lo: int64, to: int64, step: int64)
    requires step > 0 && Sorted(times) && forall i | 0 <= i < |times| :: times[i] < to
    ensures Flat(Slices(times, lo, to, step)) == times[First(times, lo)..]
  {
    if lo < to {
      var end := WalkEnd(lo, to, step);
      WalkEndAfter(lo, to, step);
      SlicesPartition(times, lo, to, step);
      AllBefore(times, end);
      assert times[First(times, lo)..|times|] == times[First(times, lo)..];
    } else {
      AllBefore(times, lo);
      assert Slices(times, lo, to, step) == [];
    }
  }

  /** Every requested row lands in exactly one bucket, in order, exactly when none of them is below the
      lowest multiple of the step; those that are, in a window at the bottom of the domain, are in no
      bucket. */
  lemma RequestedRowsCoveredExactly(times: seq<int64>, w: Window, step: int64)
    requires step > 0 && Sorted(times) && w.from < w.to
    requires forall i | 0 <= i < |times| :: w.from <= times[i] < w.to
    ensures Flat(Slices(times, BucketSpan(w, step).from, w.to, step)) == times <==>
            forall i | 0 <= i < |times| :: LowestMultiple(step) <= times[i]
  {
    var lo := BucketSpan(w, step).from;
    SlicesFrom(times, lo, w.to, step);
    StartCoveredExactly(w, step);
    AlignDownRight(w.from, step);
    var k := First(times, lo);
    assert times[k..] == times <==> k == 0;
    if k == 0 && |times| > 0 { assert times[0] >= lo; }
  }

  // ------------------------------------------------------------------ the window, resolved once

  /** A window narrowed by the query's own time filter. */
  function Resolve(w: Window, filter: Window): (int, int) {
    (Max(w.from, filter.from), Min(w.to, filter.to))
  }

  /** An instant is left exactly when both allow it. */
  lemma ResolveExactly(w: Window, filter: Window, t: int)
    ensures Resolve(w, filter).0 <= t < Resolve(w, filter).1 <==> w.from <= t < w.to && filter.from <= t < filter.to
  {
  }

  lemma {:induction false} BucketsInside(bs: int64, to: int64, step: int64, i: nat)
    requires step > 0 && i < |Starts(bs, to, step)|
    ensures var b := Starts(bs, to, step)[i];
            bs <= b < BucketEnd(b, step) <= WalkEnd(bs, to, step) && b < to
    decreases i
  {
    BucketEndRight(bs, step);
    var be := BucketEnd(bs, step);
    WalkEndAfter(be, to, step);
    if i > 0 { BucketsInside(be, to, step, i - 1); }
  }

  /** Resolving the filter once over the fetched span and intersecting it with a bucket is resolving it
      for that bucket, for every bucket of the walk. */
  lemma HoistedWindow(w: Window, step: int64, filter: Window, i: nat)
    requires step > 0 && w.from < w.to && i < |Starts(BucketSpan(w, step).from, w.to, step)|
    ensures var span := BucketSpan(w, step);
            var bs := Starts(span.from, w.to, step)[i];
            var be := BucketEnd(bs, step);
            var (rs, re) := Resolve(span, filter);
            Resolve(Window(bs, be), filter) == (Max(bs, rs), Min(be, re))
  {
    BucketsInside(BucketSpan(w, step).from, w.to, step, i);
    SpanIsWalked(w, step);
  }
}
