/** Aggregates that cannot be merged: the rows of the whole range are fetched once, merged, sliced by
bucket, and the rest of the pipeline runs over each slice. A bucket's rows after the pipeline are what
the series are accumulated from, on a router as on a node. */
module StatsExact {
  import opened Basics
  import opened Sorting
  import opened Merge
  import opened Planner
  import opened PlannerProof
  import W = BucketWalk
  import opened StatsWalk

  // ------------------------------------------------------------------ rows within edges

  function Within(rows: seq<Row>, from: int, to: int): seq<Row> {
    if rows == [] then []
    else
      var last := rows[|rows| - 1];
      Within(rows[..|rows| - 1], from, to) + if from <= last.time < to then [last] else []
  }

  lemma WithinSnoc(rows: seq<Row>, r: Row, from: int, to: int)
    ensures Within(rows + [r], from, to) == Within(rows, from, to) + if from <= r.time < to then [r] else []
  {
    assert (rows + [r])[..|rows|] == rows;
  }

  lemma Regrouped(a: seq<Row>, b: seq<Row>, c: seq<Row>)
    ensures a + b + c == a + (b + c)
  {
  }

  lemma {:induction false} WithinConcat(a: seq<Row>, b: seq<Row>, from: int, to: int)
    ensures Within(a + b, from, to) == Within(a, from, to) + Within(b, from, to)
  {
    if b == [] {
      assert a + b == a;
    } else {
      var n := |b| - 1;
      WithinConcat(a, b[..n], from, to);
      assert a + b == a + b[..n] + [b[n]];
      WithinSnoc(a + b[..n], b[n], from, to);
      Regrouped(Within(a, from, to), Within(b[..n], from, to), if from <= b[n].time < to then [b[n]] else []);
    }
  }

  lemma {:induction false} WithinAll(rows: seq<Row>, from: int, to: int)
    requires forall i | 0 <= i < |rows| :: from <= rows[i].time < to
    ensures Within(rows, from, to) == rows
  {
    if rows != [] {
      var n := |rows| - 1;
      WithinAll(rows[..n], from, to);
      assert rows == rows[..n] + [rows[n]];
    }
  }

  lemma {:induction false} WithinNone(rows: seq<Row>, from: int, to: int)
    requires forall i | 0 <= i < |rows| :: !(from <= rows[i].time < to)
    ensures Within(rows, from, to) == []
  {
    if rows != [] { WithinNone(rows[..|rows| - 1], from, to); }
  }

  lemma {:induction false} WithinNested(rows: seq<Row>, a: int, b: int, from: int, to: int)
    requires a <= from && to <= b
    ensures Within(Within(rows, a, b), from, to) == Within(rows, from, to)
  {
    if rows != [] {
      var n := |rows| - 1;
      WithinNested(rows[..n], a, b, from, to);
      var inner := Within(rows[..n], a, b);
      if a <= rows[n].time < b { WithinSnoc(inner, rows[n], from, to); } else { assert inner + [] == inner; }
    }
  }

  /** A row-local prefix that keeps times can be run before or after the cut. */
  lemma {:induction false} WithinApply(pre: seq<Pipe>, rows: seq<Row>, from: int, to: int)
    requires Pushables(pre) && AllHonest(pre)
    ensures Within(ApplyAll(pre, rows), from, to) == ApplyAll(pre, Within(rows, from, to))
  {
    if rows == [] {
      ApplyNone(pre);
    } else {
      var n := |rows| - 1;
      var r := rows[n];
      assert rows == rows[..n] + [r];
      WithinApply(pre, rows[..n], from, to);
      ApplyConcat(pre, rows[..n], [r]);
      WithinConcat(ApplyAll(pre, rows[..n]), Each(pre, r), from, to);
      EachWithin(pre, r, from, to);
      var inner := Within(rows[..n], from, to);
      if from <= r.time < to { ApplyConcat(pre, inner, [r]); } else { assert inner + [] == inner; }
    }
  }

  lemma EachWithin(pre: seq<Pipe>, r: Row, from: int, to: int)
    requires Pushables(pre) && AllHonest(pre)
    ensures Within(Each(pre, r), from, to) == if from <= r.time < to then Each(pre, r) else []
  {
    ApplyTime(pre, [r], r.time);
    forall i | 0 <= i < |Each(pre, r)| ensures Each(pre, r)[i].time == r.time { assert Each(pre, r)[i] in Each(pre, r); }
    if from <= r.time < to { WithinAll(Each(pre, r), from, to); } else { WithinNone(Each(pre, r), from, to); }
  }

  // ------------------------------------------------------------------ slicing

  predicate InDomain(rows: seq<Row>) {
    forall i | 0 <= i < |rows| :: MIN64 <= rows[i].time <= MAX64
  }

  predicate InOrder(rows: seq<Row>) {
    forall i, j | 0 <= i < j < |rows| :: rows[i].time <= rows[j].time
  }

  function Times(rows: seq<Row>): (r: seq<int64>)
    requires InDomain(rows)
    ensures |r| == |rows| && forall i | 0 <= i < |r| :: r[i] == rows[i].time
    ensures InOrder(rows) ==> W.Sorted(r)
  {
    seq(|rows|, i requires 0 <= i < |rows| => rows[i].time)
  }

  lemma CutWithin(rows: seq<Row>, from: int, to: int, lo: nat, hi: nat)
    requires lo <= hi <= |rows|
    requires forall i | 0 <= i < lo :: rows[i].time < from
    requires forall i | lo <= i < hi :: from <= rows[i].time < to
    requires forall i | hi <= i < |rows| :: to <= rows[i].time
    ensures rows[lo..hi] == Within(rows, from, to)
  {
    var a, b, c := rows[..lo], rows[lo..hi], rows[hi..];
    assert rows == a + b + c;
    WithinConcat(a + b, c, from, to);
    WithinConcat(a, b, from, to);
    WithinNone(a, from, to);
    WithinAll(b, from, to);
    WithinNone(c, from, to);
  }

  lemma SearchCuts(times: seq<int64>, from: int64, to: int64, i: nat)
    requires W.Sorted(times) && from <= to && i < |times|
    ensures i < W.First(times, from) ==> times[i] < from
    ensures W.First(times, from) <= i < W.First(times, to) ==> from <= times[i] < to
    ensures W.First(times, to) <= i ==> to <= times[i]
  {
    var lo, hi := W.First(times, from), W.First(times, to);
    if lo <= i { assert times[lo] <= times[i]; }
    if hi <= i { assert times[hi] <= times[i]; }
  }

  /** Rows in time order between two searches are the rows within the two edges. */
  lemma SliceIsWithin(rows: seq<Row>, from: int64, to: int64, lo: nat, hi: nat)
    requires InDomain(rows) && InOrder(rows) && from <= to
    requires lo == W.First(Times(rows), from) && hi == W.First(Times(rows), to)
    ensures lo <= hi <= |rows| && rows[lo..hi] == Within(rows, from, to)
  {
    var times := Times(rows);
    W.FirstMonotone(times, from, to);
    forall i: nat | i < |rows|
      ensures (i < lo ==> rows[i].time < from) && (lo <= i < hi ==> from <= rows[i].time < to) && (hi <= i ==> to <= rows[i].time)
    {
      SearchCuts(times, from, to, i);
    }
    CutWithin(rows, from, to, lo, hi);
  }

  /** A bucket's start and its rows after the pipeline. */
  datatype Bucket = Bucket(start: int, rows: seq<Row>)

  /** Each bucket's own rows through the pipeline of that bucket: what a node accumulates, running the
      query once for every bucket. */
  function Buckets(pipesAt: int -> seq<Pipe>, rows: seq<Row>, starts: seq<int64>, step: int64): (r: seq<Bucket>)
    ensures |r| == |starts|
  {
    seq(|starts|, k requires 0 <= k < |starts| => BucketOf(pipesAt, rows, starts[k], step))
  }

  function BucketOf(pipesAt: int -> seq<Pipe>, rows: seq<Row>, start: int64, step: int64): Bucket {
    Bucket(start, ApplyAll(pipesAt(start), Within(rows, start, W.BucketEnd(start, step))))
  }

  lemma BucketsSnoc(pipesAt: int -> seq<Pipe>, rows: seq<Row>, starts: seq<int64>, bs: int64, step: int64)
    ensures Buckets(pipesAt, rows, starts + [bs], step) == Buckets(pipesAt, rows, starts, step) + [BucketOf(pipesAt, rows, bs, step)]
  {
  }

  /** The walk as the router takes it over the rows it fetched: two searches and a slice a bucket. */
  method ExactBuckets(fetched: seq<Row>, w: W.Window, step: int64, coordAt: int -> seq<Pipe>) returns (buckets: seq<Bucket>)
    requires step > 0 && InDomain(fetched) && InOrder(fetched)
    ensures buckets == Buckets(coordAt, fetched, WalkStarts(w, step), step)
  {
    var times := Times(fetched);
    var bs: int64 := W.BucketSpan(w, step).from;
    buckets := [];
    ghost var starts: seq<int64> := [];
    while W.Gap(bs, w.to) > 0
      invariant buckets == Buckets(coordAt, fetched, starts, step)
      invariant starts + W.Starts(bs, w.to, step) == WalkStarts(w, step)
      decreases W.Gap(bs, w.to)
    {
      W.WalkStep(times, bs, w.to, step);
      var be := W.BucketEnd(bs, step);
      var lo := W.Search(times, bs);
      var hi := W.Search(times, be);
      SliceIsWithin(fetched, bs, be, lo, hi);
      BucketsSnoc(coordAt, fetched, starts, bs, step);
      W.Onwards(starts, bs, W.Starts(be, w.to, step));
      buckets := buckets + [Bucket(bs, ApplyAll(coordAt(bs), fetched[lo..hi]))];
      starts := starts + [bs];
      bs := be;
    }
    assert starts + [] == starts;
  }

  // ------------------------------------------------------------------ the whole path

  /** The rows of the range, on all shards together. */
  function Fetched(rows: seq<Row>, w: W.Window, step: int64): seq<Row>
    requires step > 0
  {
    var span := W.BucketSpan(w, step);
    Within(rows, span.from, span.to)
  }

  /** What the router merges from the shards' answers to the pushed prefix. */
  function MergedRows(pre: seq<Pipe>, rows: seq<Row>, home: Row -> nat, shards: nat, order: seq<nat>): seq<Row>
    requires Known(order, shards)
  {
    Rows(Merged(false, order, Bodies(pre, rows, home, shards)))
  }

  /** The coordinator's half for a bucket: the rest of the pipeline, or all of it when the pushed prefix
      was cut short. */
  function CoordAt(pre: seq<Pipe>, restAt: int -> seq<Pipe>, cut: bool): int -> seq<Pipe> {
    (start: int) => if cut then pre + restAt(start) else restAt(start)
  }

  function WholeAt(pre: seq<Pipe>, restAt: int -> seq<Pipe>): int -> seq<Pipe> {
    (start: int) => pre + restAt(start)
  }

  lemma {:induction false} WithinAscending(rows: seq<Row>, from: int, to: int)
    requires Ascending(rows)
    ensures Ascending(Within(rows, from, to)) && forall x | x in Within(rows, from, to) :: x in rows && from <= x.time < to
  {
    if rows != [] {
      var n := |rows| - 1;
      WithinAscending(rows[..n], from, to);
      var inner := Within(rows[..n], from, to);
      forall i | 0 <= i < |inner| ensures inner[i].time < rows[n].time {
        assert inner[i] in inner;
        var j :| 0 <= j < n && rows[j] == inner[i];
      }
    }
  }

  /** One bucket of the router is one bucket of a node. */
  lemma ExactBucket(pre: seq<Pipe>, restAt: int -> seq<Pipe>, cut: bool, rows: seq<Row>, span: W.Window, merged: seq<Row>,
                    start: int64, step: int64)
    requires Pushables(pre) && AllHonest(pre) && (cut ==> Idempotent(pre))
    requires merged == ApplyAll(pre, Within(rows, span.from, span.to))
    requires span.from <= start && W.BucketEnd(start, step) <= span.to
    ensures BucketOf(CoordAt(pre, restAt, cut), merged, start, step) == BucketOf(WholeAt(pre, restAt), rows, start, step)
  {
    var from, to := start, W.BucketEnd(start, step);
    var inside := Within(rows, from, to);
    WithinApply(pre, Within(rows, span.from, span.to), from, to);
    WithinNested(rows, span.from, span.to, from, to);
    var all := pre + restAt(start);
    assert all[..|pre|] == pre && all[|pre|..] == restAt(start);
    ApplySplit(all, |pre|, inside);
    if cut {
      ApplySplit(all, |pre|, ApplyAll(pre, inside));
      ApplyTwice(pre, inside);
    }
  }

  /** An aggregate that cannot be merged is answered over merged rows exactly as one node holding all the
      rows answers it: bucket by bucket the same rows reach the accumulator, for any pipeline, its stats
      pipe included, that may differ from bucket to bucket, any window and step, any partition and any
      order in which the shards finish; the cut-short prefix being idempotent. */
  lemma ExactIsNode(pre: seq<Pipe>, restAt: int -> seq<Pipe>, cut: bool, rows: seq<Row>, home: Row -> nat, shards: nat,
                    order: seq<nat>, w: W.Window, step: int64)
    requires Pushables(pre) && AllHonest(pre) && (cut ==> Idempotent(pre)) && step > 0 && Ascending(rows)
    requires (forall r :: home(r) < shards) && Finishes(order, shards)
    ensures Buckets(CoordAt(pre, restAt, cut), MergedRows(pre, Fetched(rows, w, step), home, shards, order), WalkStarts(w, step), step)
         == Buckets(WholeAt(pre, restAt), rows, WalkStarts(w, step), step)
  {
    var fetched, span, starts := Fetched(rows, w, step), W.BucketSpan(w, step), WalkStarts(w, step);
    WithinAscending(rows, span.from, span.to);
    MergeOfParts(pre, fetched, home, shards, order, false, true);
    var merged := MergedRows(pre, fetched, home, shards, order);
    forall k: nat | k < |starts|
      ensures BucketOf(CoordAt(pre, restAt, cut), merged, starts[k], step) == BucketOf(WholeAt(pre, restAt), rows, starts[k], step)
    {
      BucketInSpan(w, step, k);
      ExactBucket(pre, restAt, cut, rows, span, merged, starts[k], step);
    }
  }

  lemma {:induction false} AppliedInOrder(pre: seq<Pipe>, rows: seq<Row>)
    requires Pushables(pre) && AllHonest(pre) && Ascending(rows)
    ensures InOrder(ApplyAll(pre, rows))
    ensures forall x | x in ApplyAll(pre, rows) :: exists r :: r in rows && r.time == x.time
  {
    if rows == [] {
      ApplyNone(pre);
    } else {
      var n := |rows| - 1;
      assert rows == rows[..n] + [rows[n]];
      AppliedInOrder(pre, rows[..n]);
      ApplyConcat(pre, rows[..n], [rows[n]]);
      ApplyTime(pre, [rows[n]], rows[n].time);
      OrderJoined(rows[..n], rows[n], ApplyAll(pre, rows[..n]), Each(pre, rows[n]));
    }
  }

  lemma OrderJoined(rows: seq<Row>, r: Row, a: seq<Row>, b: seq<Row>)
    requires Ascending(rows + [r]) && InOrder(a) && (forall x | x in b :: x.time == r.time)
    requires forall x | x in a :: exists y :: y in rows && y.time == x.time
    ensures InOrder(a + b) && forall x | x in a + b :: exists y :: y in rows + [r] && y.time == x.time
  {
    var all := rows + [r];
    assert all[|rows|] == r;
    forall x | x in a ensures x.time < r.time && exists y :: y in all && y.time == x.time {
      var y :| y in rows && y.time == x.time;
      var k :| 0 <= k < |rows| && rows[k] == y;
      assert all[k] == y && y in all;
    }
    forall x | x in b ensures exists y :: y in all && y.time == x.time { assert r in all; }
    forall i, j | 0 <= i < j < |a + b| ensures (a + b)[i].time <= (a + b)[j].time {
      if i < |a| { assert a[i] in a; } else { assert b[i - |a|] in b; }
      if j >= |a| { assert b[j - |a|] in b; }
    }
  }

  /** What the router merges is fit for the walk. */
  lemma MergedFits(pre: seq<Pipe>, rows: seq<Row>, home: Row -> nat, shards: nat, order: seq<nat>, w: W.Window, step: int64)
    requires Pushables(pre) && AllHonest(pre) && step > 0 && Ascending(rows) && (forall r :: home(r) < shards) && Finishes(order, shards)
    ensures var merged := MergedRows(pre, Fetched(rows, w, step), home, shards, order); InDomain(merged) && InOrder(merged)
  {
    var span, fetched := W.BucketSpan(w, step), Fetched(rows, w, step);
    WithinAscending(rows, span.from, span.to);
    MergeOfParts(pre, fetched, home, shards, order, false, true);
    AppliedInOrder(pre, fetched);
    var merged := MergedRows(pre, fetched, home, shards, order);
    forall i | 0 <= i < |merged| ensures MIN64 <= merged[i].time <= MAX64 {
      assert merged[i] in merged;
    }
  }

  /** Every bucket of the walk lies within what was fetched. */
  lemma BucketInSpan(w: W.Window, step: int64, k: nat)
    requires step > 0 && k < |WalkStarts(w, step)|
    ensures var span := W.BucketSpan(w, step); span.from <= WalkStarts(w, step)[k] && W.BucketEnd(WalkStarts(w, step)[k], step) <= span.to
  {
    W.BucketsInside(W.BucketSpan(w, step).from, w.to, step, k);
    var i := WalkAligned(w, step);
    W.SpanIsWalked(w, step);
  }
}
