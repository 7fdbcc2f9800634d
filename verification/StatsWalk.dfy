/** A range of stats over the buckets of a walk: which steps the router's merge is right for. */
module StatsWalk {
  import opened Basics
  import opened Sorting
  import opened Labels
  import opened Merge
  import opened Planner
  import W = BucketWalk
  import opened StatsMerge
  import opened StatsSeries
  import opened StatsRange
  import opened StatsNode
  import opened StatsAcc

  // ------------------------------------------------------------------ the buckets of a walk

  function WalkStarts(w: W.Window, step: int64): seq<int64>
    requires step > 0
  {
    W.Starts(W.BucketSpan(w, step).from, w.to, step)
  }

  /** From a multiple of the step on, the starts are the multiples. */
  lemma {:induction false} StartsAligned(bs: int64, to: int64, step: int64, k: int, i: nat)
    requires step > 0 && bs == k * step && i < |W.Starts(bs, to, step)|
    ensures W.Starts(bs, to, step)[i] == (k + i) * step
    decreases i
  {
    W.BucketEndRight(bs, step);
    if i > 0 {
      assert (k + 1) * step == k * step + step;
      StartsAligned(W.BucketEnd(bs, step), to, step, k + 1, i - 1);
    }
  }

  lemma WalkAligned(w: W.Window, step: int64) returns (k: int)
    requires step > 0
    ensures w.from < w.to ==> forall i: nat | i < |WalkStarts(w, step)| :: WalkStarts(w, step)[i] == (k + i) * step
    ensures w.to <= w.from ==> WalkStarts(w, step) == []
  {
    k := 0;
    if w.from < w.to {
      k := W.AlignedStart(w.from, step);
      forall i: nat | i < |WalkStarts(w, step)| ensures WalkStarts(w, step)[i] == (k + i) * step {
        StartsAligned(W.BucketSpan(w, step).from, w.to, step, k, i);
      }
    }
  }

  lemma MultipleMod(k: int, step: int)
    requires step > 0
    ensures (k * step) % step == 0
  {
    var q, r := (k * step) / step, (k * step) % step;
    assert k * step == q * step + r;
    assert (k - q) * step == r;
    if k > q { Scaled(q, k, step); } else if k < q { Scaled(k, q, step); }
  }

  /** The starts of a walk are multiples of the step, each above the one before by a step or more. */
  lemma WalkRight(w: W.Window, step: int64)
    requires step > 0
    ensures forall i | 0 <= i < |WalkStarts(w, step)| :: WalkStarts(w, step)[i] % step == 0
    ensures forall i, j | 0 <= i < j < |WalkStarts(w, step)| :: WalkStarts(w, step)[i] + step <= WalkStarts(w, step)[j]
  {
    var k := WalkAligned(w, step);
    forall i: nat | i < |WalkStarts(w, step)| ensures WalkStarts(w, step)[i] % step == 0 { MultipleMod(k + i, step); }
    forall i: nat, j: nat | i < j < |WalkStarts(w, step)| ensures WalkStarts(w, step)[i] + step <= WalkStarts(w, step)[j] {
      Scaled(k + i, k + j, step);
    }
  }

  lemma TwoStarts(step: int64)
    requires 0 < step < SECOND
    ensures WalkStarts(W.Window(0, 2 * step), step) == [0, step]
  {
    var w := W.Window(0, 2 * step);
    W.AlignDownRight(0, step);
    W.BucketEndRight(0, step);
    W.BucketEndRight(step, step);
    assert 0 % step == 0;
    assert W.Starts(2 * step, 2 * step, step) == [];
    assert W.Starts(step, 2 * step, step) == [step];
  }

  /** Every walk at a step has distinct stamps exactly when the step is a second or more. */
  lemma WalkStampsExactly(step: int64)
    requires step > 0
    ensures (forall w: W.Window :: NoDup(Stamps(WalkStarts(w, step)))) <==> step >= SECOND
  {
    if step >= SECOND {
      forall w: W.Window ensures NoDup(Stamps(WalkStarts(w, step))) {
        WalkRight(w, step);
        WalkStampsApart(WalkStarts(w, step), step);
      }
    } else {
      var w := W.Window(0, 2 * step);
      TwoStarts(step);
      assert Stamps(WalkStarts(w, step))[0] == Stamps(WalkStarts(w, step))[1];
    }
  }

  // ------------------------------------------------------------------ a query over a walk

  predicate InBucket(start: int64, step: int64, t: int) {
    start <= t < W.BucketEnd(start, step)
  }

  /** The bucket an instant is in, or the number of buckets when it is in none. */
  function BucketAt(starts: seq<int64>, step: int64, t: int): (k: nat)
    ensures k <= |starts|
    ensures k < |starts| ==> InBucket(starts[k], step, t)
    ensures k == |starts| ==> forall i | 0 <= i < |starts| :: !InBucket(starts[i], step, t)
  {
    if starts == [] then 0 else if InBucket(starts[0], step, t) then 0 else 1 + BucketAt(starts[1..], step, t)
  }

  function RangeOver(query: seq<Stage>, w: W.Window, step: int64): Range
    requires step > 0
  {
    var starts := WalkStarts(w, step);
    Range(query, starts, (r: Row) => BucketAt(starts, step, r.time))
  }

  /** The buckets of a walk do not meet, so each takes exactly the rows within its edges. */
  lemma BucketExactly(w: W.Window, step: int64, t: int, k: nat)
    requires step > 0 && k < |WalkStarts(w, step)|
    ensures BucketAt(WalkStarts(w, step), step, t) == k <==> InBucket(WalkStarts(w, step)[k], step, t)
  {
    var starts := WalkStarts(w, step);
    var at := BucketAt(starts, step, t);
    WalkRight(w, step);
    W.BucketEndRight(starts[k], step);
    if at < |starts| {
      W.BucketEndRight(starts[at], step);
      if at < k { assert starts[at] + step <= starts[k]; } else if k < at { assert starts[k] + step <= starts[at]; }
    }
  }

  /** The shards' answers over their own rows, label sets free of NUL. */
  ghost predicate AskedOver(q: Range, rows: seq<Row>, home: Row -> nat, answers: seq<seq<Series>>) {
    && Ready(q) && (forall r :: home(r) < |answers|)
    && (forall s | 0 <= s < |answers| :: NodeLists(answers[s], q, Part(rows, home, s)) && Filled(answers[s]))
    && AllNulFree(Flatten(answers))
  }

  lemma AskedOverWalk(query: seq<Stage>, w: W.Window, step: int64, rows: seq<Row>, home: Row -> nat, answers: seq<seq<Series>>)
    requires step >= SECOND && AskedOver(RangeOver(query, w, step), rows, home, answers)
    ensures Asked(RangeOver(query, w, step), rows, home, answers)
  {
    var q := RangeOver(query, w, step);
    WalkStampsExactly(step);
    forall s | 0 <= s < |answers| ensures Answered(answers[s], NodeCells(q, Part(rows, home, s))) {
      NodeListsCells(answers[s], q, Part(rows, home, s));
    }
  }

  /** At a step of a second or more, over every window, what the router emits for a stats query it merges
      is what a node holding all the rows answers, exactly when no shard's printed zero passes a true
      extreme. */
  lemma WalkIsNodeExactly(query: seq<Stage>, w: W.Window, step: int64, rows: seq<Row>, home: Row -> nat,
                          answers: seq<seq<Series>>, table: Table, out: seq<Series>, keys: seq<string>)
    requires step >= SECOND && AskedOver(RangeOver(query, w, step), rows, home, answers)
    requires Builds(OpsOf(Last(query).aggs), table, Flatten(answers)) && Emitted(out, keys, table)
    ensures var q := RangeOver(query, w, step);
            NodeLists(out, q, rows) <==> forall labels: Labels, k: nat | k < |q.starts| :: Kept(q, rows, home, |answers|, labels, k)
  {
    var q := RangeOver(query, w, step);
    AskedOverWalk(query, w, step, rows, home, answers);
    MatrixIsNodeExactly(q, rows, home, answers, table, out, keys);
    NodeListsCells(out, q, rows);
  }

  // ------------------------------------------------------------------ below a second

  /** The router lists at most one value under a label set and stamp, whatever it was given. */
  lemma RouterListsOnce(ops: Option<map<string, Op>>, table: Table, all: seq<Series>, out: seq<Series>, keys: seq<string>,
                        labels: Labels, stamp: int)
    requires Builds(ops, table, all) && Emitted(out, keys, table)
    ensures |Picked(out, Is(labels), stamp)| <= 1
  {
    EmittedDistinct(ops, table, all, out, keys);
    if i :| 0 <= i < |out| && out[i].labels == labels {
      PickedOnce(out, i, stamp);
      assert Shows(out[i], table[keys[i]]);
    } else {
      PickedNone(out, labels, stamp);
    }
  }

  /** How many of two buckets are among the first n. */
  function Among(n: nat, j: nat, k: nat): nat {
    (if j < n then 1 else 0) + (if k < n then 1 else 0)
  }

  /** A node lists a value for each bucket of a stamp that has a cell. */
  lemma {:induction false} ListsEach(stamps: seq<int>, cells: nat -> Option<int>, n: nat, stamp: int, j: nat, k: nat)
    requires n <= |stamps| && j < k < |stamps| && stamps[j] == stamp == stamps[k] && cells(j).Some? && cells(k).Some?
    ensures |Values(Points(stamps, cells, n), stamp)| >= Among(n, j, k)
  {
    if n > 0 {
      ListsEach(stamps, cells, n - 1, stamp, j, k);
      ListsNext(stamps, cells, n - 1, stamp, j, k);
    }
  }

  lemma ListsNext(stamps: seq<int>, cells: nat -> Option<int>, n: nat, stamp: int, j: nat, k: nat)
    requires n < |stamps| && j < k < |stamps| && stamps[j] == stamp == stamps[k] && cells(j).Some? && cells(k).Some?
    requires |Values(Points(stamps, cells, n), stamp)| >= Among(n, j, k)
    ensures |Values(Points(stamps, cells, n + 1), stamp)| >= Among(n + 1, j, k)
  {
    PointsNext(stamps, cells, n, stamp);
  }

  /** So where two buckets of one stamp both have a cell of some label set, the router's answer is not the
      node's, however the rows are spread and whatever the shards answer. */
  lemma SharedStampIsNeverNode(q: Range, rows: seq<Row>, labels: Labels, j: nat, k: nat, ops: Option<map<string, Op>>,
                               table: Table, all: seq<Series>, out: seq<Series>, keys: seq<string>)
    requires Ready(q) && j < k < |q.starts| && Stamp(q.starts[j]) == Stamp(q.starts[k])
    requires BucketCells(q, rows, labels)(j).Some? && BucketCells(q, rows, labels)(k).Some?
    requires Builds(ops, table, all) && Emitted(out, keys, table)
    ensures !NodeLists(out, q, rows)
  {
    var stamp := Stamp(q.starts[j]);
    RouterListsOnce(ops, table, all, out, keys, labels, stamp);
    ListsEach(Stamps(q.starts), BucketCells(q, rows, labels), |q.starts|, stamp, j, k);
    assert Picked(out, Is(labels), stamp) != Values(PointsUpTo(q, rows, labels, |q.starts|), stamp);
  }

  /** `stats count() c`. */
  const COUNT := [Grouped([], [Agg(Count, "c", (r: Row) => Some(1))])]
  const COUNTED: Labels := map[NAME := "c"]

  lemma CountReady(w: W.Window, step: int64)
    requires step > 0
    ensures Ready(RangeOver(COUNT, w, step)) && Pre(COUNT) == [] && Last(COUNT) == COUNT[0]
  {
    assert Shaped(COUNT);
    assert IsStats(Kinds(COUNT)[0]);
    MergedShape(COUNT);
  }

  /** A bucket with a row has a count. */
  lemma CountedCell(q: Range, rows: seq<Row>, k: nat, r: Row)
    requires q.query == COUNT && Ready(q) && Pre(COUNT) == [] && r in Part(rows, q.bucketOf, k)
    ensures BucketCells(q, rows, COUNTED)(k).Some?
  {
    assert Fed(q, rows, k) == Part(rows, q.bucketOf, k);
    EmittedExactly(OpIn(q), Fed(q, rows, k), GroupPart(Last(COUNT), COUNTED));
    assert LabelsOf([], "c", r) == COUNTED;
    assert InGroup(GroupPart(Last(COUNT), COUNTED), r);
  }

  /** Two rows a step apart from the epoch on. */
  function Pair(step: int): seq<Row> {
    [Row(0, []), Row(step, [])]
  }

  lemma PairParts(q: Range, step: int64)
    requires 0 < step < SECOND && q == RangeOver(COUNT, W.Window(0, 2 * step), step)
    ensures Pair(step)[0] in Part(Pair(step), q.bucketOf, 0) && Pair(step)[1] in Part(Pair(step), q.bucketOf, 1)
  {
    var rows := Pair(step);
    TwoStarts(step);
    W.BucketEndRight(0, step);
    W.BucketEndRight(step, step);
    BucketExactly(W.Window(0, 2 * step), step, 0, 0);
    BucketExactly(W.Window(0, 2 * step), step, step, 1);
    assert q.bucketOf(rows[0]) == 0 && q.bucketOf(rows[1]) == 1;
    assert rows[..1] == [rows[0]] && rows[..1][..0] == [];
    PartSnoc([], q.bucketOf, 0, rows[0]);
    PartSnoc([rows[0]], q.bucketOf, 0, rows[1]);
    PartSnoc([rows[0]], q.bucketOf, 1, rows[1]);
    assert [] + [rows[0]] == [rows[0]] && [rows[0]] + [rows[1]] == rows;
  }

  /** For every step below a second there is a count over two rows that no cluster answers as a node
      does, whatever the partition, the number of shards and their answers. */
  lemma SubsecondIsNeverNode(step: int64, ops: Option<map<string, Op>>, table: Table, all: seq<Series>, out: seq<Series>, keys: seq<string>)
    requires 0 < step < SECOND && Builds(ops, table, all) && Emitted(out, keys, table)
    ensures var q := RangeOver(COUNT, W.Window(0, 2 * step), step); Ready(q) && !NodeLists(out, q, Pair(step))
  {
    var w := W.Window(0, 2 * step);
    var q := RangeOver(COUNT, w, step);
    CountReady(w, step);
    TwoStarts(step);
    PairParts(q, step);
    CountedCell(q, Pair(step), 0, Pair(step)[0]);
    CountedCell(q, Pair(step), 1, Pair(step)[1]);
    SharedStampIsNeverNode(q, Pair(step), COUNTED, 0, 1, ops, table, all, out, keys);
  }
}
