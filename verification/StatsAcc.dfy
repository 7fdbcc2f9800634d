/** How a node builds its series: the stats pipe groups the rows of one bucket, and one point is added to
the series of each group, bucket after bucket. */
module StatsAcc {
  import opened Basics
  import opened Sorting
  import opened Labels
  import opened Merge
  import opened Planner
  import opened StatsMerge
  import opened StatsSeries
  import opened StatsRange
  import opened StatsNode

  // ------------------------------------------------------------------ one bucket

  /** Groups in the order they were first seen. */
  datatype Groups = Groups(order: seq<Labels>, slots: map<Labels, Slot>)

  ghost predicate WellListed<T>(order: seq<Labels>, table: map<Labels, T>) {
    NoDup(order) && Elems(order) == table.Keys
  }

  function SlotAt(slots: map<Labels, Slot>, labels: Labels): Slot {
    if labels in slots then slots[labels] else Absent
  }

  /** Every group holds what the rows make of it, and only groups with a row are there. */
  ghost predicate Holding(stage: Stage, op: Op, rows: seq<Row>, slots: map<Labels, Slot>)
    requires Named(stage)
  {
    forall labels :: SlotAt(slots, labels) == SlotOf(op, rows, GroupPart(stage, labels))
                     && (labels in slots <==> SlotAt(slots, labels).Present?)
  }

  /** The groups of the rows, listed once each. */
  ghost predicate Grouped(stage: Stage, op: Op, rows: seq<Row>, g: Groups)
    requires Named(stage)
  {
    WellListed(g.order, g.slots) && Holding(stage, op, rows, g.slots)
  }

  lemma ListedNext<T>(order: seq<Labels>, table: map<Labels, T>, labels: Labels, x: T)
    requires WellListed(order, table)
    ensures WellListed(if labels in table then order else order + [labels], table[labels := x])
  {
    if labels in table {
      assert table[labels := x].Keys == table.Keys;
    } else {
      assert labels !in Elems(order);
      assert forall i | 0 <= i < |order| :: order[i] in Elems(order);
      assert Elems(order + [labels]) == Elems(order) + {labels};
    }
  }

  /** Adds one row to its group. */
  function AddRow(stage: Stage, op: Op, g: Groups, r: Row): Groups
    requires Named(stage)
  {
    var labels := LabelsOf(stage.fields, stage.aggs[0].alias, r);
    var slot := Fold(op, SlotAt(g.slots, labels), Present(stage.aggs[0].sample(r)));
    Groups(if labels in g.slots then g.order else g.order + [labels], g.slots[labels := slot])
  }

  /** The stats pipe over one row list. */
  method GroupRows(stage: Stage, op: Op, rows: seq<Row>) returns (g: Groups)
    requires Named(stage)
    ensures Grouped(stage, op, rows, g)
  {
    g := Groups([], map[]);
    NoGroups(stage, op);
    var i := 0;
    while i < |rows|
      invariant 0 <= i <= |rows| && Grouped(stage, op, rows[..i], g)
    {
      g := GroupOne(stage, op, rows[..i], g, rows[i]);
      assert rows[..i + 1] == rows[..i] + [rows[i]];
      i := i + 1;
    }
    assert rows[..i] == rows;
  }

  lemma NoGroups(stage: Stage, op: Op)
    requires Named(stage)
    ensures Grouped(stage, op, [], Groups([], map[]))
  {
  }

  method GroupOne(stage: Stage, op: Op, ghost done: seq<Row>, g: Groups, r: Row) returns (next: Groups)
    requires Named(stage) && Grouped(stage, op, done, g)
    ensures Grouped(stage, op, done + [r], next)
  {
    GroupedNext(stage, op, done, g, r);
    next := AddRow(stage, op, g, r);
  }

  lemma SlotNext(stage: Stage, op: Op, rows: seq<Row>, r: Row, labels: Labels)
    requires Named(stage)
    ensures SlotOf(op, rows + [r], GroupPart(stage, labels)) ==
            if labels == LabelsOf(stage.fields, stage.aggs[0].alias, r)
            then Fold(op, SlotOf(op, rows, GroupPart(stage, labels)), Present(stage.aggs[0].sample(r)))
            else SlotOf(op, rows, GroupPart(stage, labels))
  {
    SlotSnoc(op, rows, r, GroupPart(stage, labels));
  }

  lemma GroupedNext(stage: Stage, op: Op, rows: seq<Row>, g: Groups, r: Row)
    requires Named(stage) && Grouped(stage, op, rows, g)
    ensures Grouped(stage, op, rows + [r], AddRow(stage, op, g, r))
  {
    var labels := LabelsOf(stage.fields, stage.aggs[0].alias, r);
    var slot := Fold(op, SlotAt(g.slots, labels), Present(stage.aggs[0].sample(r)));
    ListedNext(g.order, g.slots, labels, slot);
    HoldingNext(stage, op, rows, g.slots, r, labels, slot);
  }

  lemma HoldingNext(stage: Stage, op: Op, rows: seq<Row>, slots: map<Labels, Slot>, r: Row, labels: Labels, slot: Slot)
    requires Named(stage) && Holding(stage, op, rows, slots) && labels == LabelsOf(stage.fields, stage.aggs[0].alias, r)
    requires slot == Fold(op, SlotAt(slots, labels), Present(stage.aggs[0].sample(r)))
    ensures Holding(stage, op, rows + [r], slots[labels := slot])
  {
    var next := slots[labels := slot];
    forall other
      ensures SlotAt(next, other) == SlotOf(op, rows + [r], GroupPart(stage, other)) && (other in next <==> SlotAt(next, other).Present?)
    {
      SlotNext(stage, op, rows, r, other);
      assert SlotAt(slots, other) == SlotOf(op, rows, GroupPart(stage, other));
      assert SlotAt(next, other) == if other == labels then slot else SlotAt(slots, other);
    }
  }

  // ------------------------------------------------------------------ all buckets

  /** A point for every one of the first k buckets that has a cell. */
  function Points(stamps: seq<int>, cells: nat -> Option<int>, k: nat): seq<Point>
    requires k <= |stamps|
  {
    if k == 0 then []
    else Points(stamps, cells, k - 1) + if cells(k - 1).None? then [] else [Point(stamps[k - 1], cells(k - 1))]
  }

  function BucketCells(q: Range, rows: seq<Row>, labels: Labels): nat -> Option<int>
    requires Ready(q)
  {
    (k: nat) => Cell(OpIn(q), Fed(q, rows, k), GroupPart(Last(q.query), labels))
  }

  /** What a label set lists after the first k buckets. */
  function PointsUpTo(q: Range, rows: seq<Row>, labels: Labels, k: nat): seq<Point>
    requires Ready(q) && k <= |q.starts|
  {
    Points(Stamps(q.starts), BucketCells(q, rows, labels), k)
  }

  function PointsIn(acc: map<Labels, seq<Point>>, labels: Labels): seq<Point> {
    if labels in acc then acc[labels] else []
  }

  ghost predicate Accumulated(q: Range, rows: seq<Row>, k: nat, order: seq<Labels>, acc: map<Labels, seq<Point>>)
    requires Ready(q) && k <= |q.starts|
  {
    && WellListed(order, acc) && (forall labels | labels in acc :: acc[labels] != [])
    && forall labels :: PointsIn(acc, labels) == PointsUpTo(q, rows, labels, k)
  }

  /** What a bucket adds under a label set. */
  function Added(slots: map<Labels, Slot>, labels: Labels, stamp: int): seq<Point> {
    if labels in slots then [Point(stamp, Printed(slots[labels]))] else []
  }

  ghost predicate Extended(acc: map<Labels, seq<Point>>, a: map<Labels, seq<Point>>, done: seq<Labels>, slots: map<Labels, Slot>, stamp: int) {
    && (forall labels | labels in a :: a[labels] != [])
    && forall labels :: PointsIn(a, labels) == PointsIn(acc, labels) + if labels in done then Added(slots, labels, stamp) else []
  }

  lemma ExtendedNext(acc: map<Labels, seq<Point>>, a: map<Labels, seq<Point>>, done: seq<Labels>, slots: map<Labels, Slot>,
                     stamp: int, labels: Labels, points: seq<Point>)
    requires Extended(acc, a, done, slots, stamp) && labels !in done && labels in slots
    requires points == PointsIn(a, labels) + [Point(stamp, Printed(slots[labels]))]
    ensures Extended(acc, a[labels := points], done + [labels], slots, stamp)
  {
    var next := a[labels := points];
    forall other
      ensures PointsIn(next, other) == PointsIn(acc, other) + if other in done + [labels] then Added(slots, other, stamp) else []
    {
      assert PointsIn(next, other) == if other == labels then points else PointsIn(a, other);
      assert other in done + [labels] <==> other in done || other == labels;
      assert PointsIn(acc, labels) + [] == PointsIn(acc, labels);
    }
  }

  /** Adds one group's point, to its series or to a new one. */
  method AddPoint(order: seq<Labels>, acc: map<Labels, seq<Point>>, stamp: int, slots: map<Labels, Slot>, labels: Labels,
                  ghost start: map<Labels, seq<Point>>, ghost done: seq<Labels>)
    returns (o: seq<Labels>, a: map<Labels, seq<Point>>)
    requires WellListed(order, acc) && Extended(start, acc, done, slots, stamp) && labels in slots && labels !in done
    ensures WellListed(o, a) && Extended(start, a, done + [labels], slots, stamp)
  {
    var points := PointsIn(acc, labels) + [Point(stamp, Printed(slots[labels]))];
    ListedNext(order, acc, labels, points);
    ExtendedNext(start, acc, done, slots, stamp, labels, points);
    o, a := if labels in acc then order else order + [labels], acc[labels := points];
  }

  lemma NothingAdded(acc: map<Labels, seq<Point>>, slots: map<Labels, Slot>, stamp: int)
    requires forall labels | labels in acc :: acc[labels] != []
    ensures Extended(acc, acc, [], slots, stamp)
  {
  }

  /** Adds one bucket's groups: a point to each group's series, a new series for a new group. */
  method AddBucket(order: seq<Labels>, acc: map<Labels, seq<Point>>, stamp: int, g: Groups)
    returns (o: seq<Labels>, a: map<Labels, seq<Point>>)
    requires WellListed(order, acc) && (forall labels | labels in acc :: acc[labels] != [])
    requires WellListed(g.order, g.slots)
    ensures WellListed(o, a) && Extended(acc, a, g.order, g.slots, stamp)
  {
    o, a := order, acc;
    NothingAdded(acc, g.slots, stamp);
    var i := 0;
    while i < |g.order|
      invariant 0 <= i <= |g.order| && WellListed(o, a) && Extended(acc, a, g.order[..i], g.slots, stamp)
    {
      assert g.order[i] in Elems(g.order) && g.order[i] !in g.order[..i];
      o, a := AddPoint(o, a, stamp, g.slots, g.order[i], acc, g.order[..i]);
      assert g.order[..i + 1] == g.order[..i] + [g.order[i]];
      i := i + 1;
    }
    assert g.order[..i] == g.order;
  }

  /** What a node answers to a range of stats: each label set once, under it one point for every bucket
      that has a cell, and nothing else. Two buckets of one stamp are two points. */
  ghost predicate NodeLists(answer: seq<Series>, q: Range, rows: seq<Row>)
    requires Ready(q)
  {
    && (forall i, j | 0 <= i < j < |answer| :: answer[i].labels != answer[j].labels)
    && forall labels, stamp :: Picked(answer, Is(labels), stamp) == Values(PointsUpTo(q, rows, labels, |q.starts|), stamp)
  }

  method StatsQueryRange(q: Range, rows: seq<Row>) returns (answer: seq<Series>)
    requires Ready(q)
    ensures NodeLists(answer, q, rows) && Filled(answer)
  {
    var order: seq<Labels>, acc: map<Labels, seq<Point>> := [], map[];
    var k := 0;
    while k < |q.starts|
      invariant 0 <= k <= |q.starts| && Accumulated(q, rows, k, order, acc)
    {
      var g := GroupRows(Last(q.query), OpIn(q), Fed(q, rows, k));
      ghost var was := acc;
      order, acc := AddBucket(order, acc, Stamp(q.starts[k]), g);
      AccumulatedNext(q, rows, k, was, order, acc, g);
      k := k + 1;
    }
    answer := [];
    while |answer| < |order|
      invariant |answer| <= |order|
      invariant forall i | 0 <= i < |answer| :: order[i] in acc && answer[i] == Series(order[i], acc[order[i]])
    {
      assert order[|answer|] in Elems(order);
      answer := answer + [Series(order[|answer|], acc[order[|answer|]])];
    }
    AccumulatedAnswers(q, rows, order, acc, answer);
  }

  lemma AccumulatedNext(q: Range, rows: seq<Row>, k: nat, was: map<Labels, seq<Point>>, order: seq<Labels>,
                        acc: map<Labels, seq<Point>>, g: Groups)
    requires Ready(q) && k < |q.starts| && Grouped(Last(q.query), OpIn(q), Fed(q, rows, k), g)
    requires forall labels :: PointsIn(was, labels) == PointsUpTo(q, rows, labels, k)
    requires WellListed(order, acc) && Extended(was, acc, g.order, g.slots, Stamp(q.starts[k]))
    ensures Accumulated(q, rows, k + 1, order, acc)
  {
    forall labels ensures PointsIn(acc, labels) == PointsUpTo(q, rows, labels, k + 1) {
      assert SlotAt(g.slots, labels) == SlotOf(OpIn(q), Fed(q, rows, k), GroupPart(Last(q.query), labels));
      assert labels in Elems(g.order) <==> labels in g.slots;
      assert PointsIn(was, labels) == PointsUpTo(q, rows, labels, k);
    }
  }

  // ------------------------------------------------------------------ the answer lists the cells

  /** i is where the stamp stands, if it does. */
  ghost predicate StandsAt(stamps: seq<int>, stamp: int, i: Option<nat>) {
    forall k | 0 <= k < |stamps| :: stamps[k] == stamp <==> i == Some(k)
  }

  lemma IndexStands(stamps: seq<int>, stamp: int)
    requires NoDup(stamps)
    ensures StandsAt(stamps, stamp, IndexOf(stamps, stamp))
  {
  }

  lemma PointsNext(stamps: seq<int>, cells: nat -> Option<int>, k: nat, stamp: int)
    requires k < |stamps|
    ensures Values(Points(stamps, cells, k + 1), stamp)
         == Values(Points(stamps, cells, k), stamp) + if stamps[k] == stamp then Listed(cells(k)) else []
  {
    var before := Points(stamps, cells, k);
    if cells(k).Some? {
      ValuesSnoc(before, Point(stamps[k], cells(k)), stamp);
    } else {
      assert before + [] == before;
    }
  }

  /** What is listed at a stamp after k buckets. */
  function ListedBy(cells: nat -> Option<int>, i: Option<nat>, k: nat): seq<Option<int>> {
    if i.Some? && i.value < k then Listed(cells(i.value)) else []
  }

  ghost predicate ListsRight(stamps: seq<int>, cells: nat -> Option<int>, k: nat, stamp: int, i: Option<nat>)
    requires k <= |stamps|
  {
    Values(Points(stamps, cells, k), stamp) == ListedBy(cells, i, k)
  }

  lemma ListsRightNext(stamps: seq<int>, cells: nat -> Option<int>, k: nat, stamp: int, i: Option<nat>)
    requires k < |stamps| && ListsRight(stamps, cells, k, stamp, i) && (stamps[k] == stamp <==> i == Some(k))
    ensures ListsRight(stamps, cells, k + 1, stamp, i)
  {
    PointsNext(stamps, cells, k, stamp);
    ListedNextBy(cells, i, k);
  }

  lemma {:induction false} PointsAre(stamps: seq<int>, cells: nat -> Option<int>, k: nat, stamp: int, i: Option<nat>)
    requires k <= |stamps| && StandsAt(stamps, stamp, i)
    ensures ListsRight(stamps, cells, k, stamp, i)
  {
    if k > 0 {
      PointsAre(stamps, cells, k - 1, stamp, i);
      ListsRightNext(stamps, cells, k - 1, stamp, i);
    }
  }

  lemma ListedNextBy(cells: nat -> Option<int>, i: Option<nat>, k: nat)
    ensures ListedBy(cells, i, k + 1) == ListedBy(cells, i, k) + if i == Some(k) then Listed(cells(k)) else []
  {
  }

  lemma PointsAreCells(q: Range, rows: seq<Row>, labels: Labels, stamp: int)
    requires Ready(q) && NoDup(Stamps(q.starts))
    ensures Values(PointsUpTo(q, rows, labels, |q.starts|), stamp) == Listed(NodeCell(q, rows, labels, stamp))
  {
    var stamps := Stamps(q.starts);
    IndexStands(stamps, stamp);
    PointsAre(stamps, BucketCells(q, rows, labels), |q.starts|, stamp, IndexOf(stamps, stamp));
  }

  lemma ValuesSnoc(points: seq<Point>, p: Point, stamp: int)
    ensures Values(points + [p], stamp) == Values(points, stamp) + if p.stamp == stamp then [p.value] else []
  {
    assert (points + [p])[..|points|] == points;
  }

  lemma AccumulatedAnswers(q: Range, rows: seq<Row>, order: seq<Labels>, acc: map<Labels, seq<Point>>, answer: seq<Series>)
    requires Ready(q) && Accumulated(q, rows, |q.starts|, order, acc) && |answer| == |order|
    requires forall i | 0 <= i < |answer| :: order[i] in acc && answer[i] == Series(order[i], acc[order[i]])
    ensures NodeLists(answer, q, rows) && Filled(answer)
  {
    forall labels, stamp ensures Picked(answer, Is(labels), stamp) == Values(PointsUpTo(q, rows, labels, |q.starts|), stamp) {
      if labels in acc {
        assert labels in Elems(order);
        var i :| 0 <= i < |order| && order[i] == labels;
        PickedOnce(answer, i, stamp);
      } else {
        forall i | 0 <= i < |answer| ensures answer[i].labels != labels { assert order[i] in Elems(order); }
        PickedNone(answer, labels, stamp);
      }
      assert PointsIn(acc, labels) == PointsUpTo(q, rows, labels, |q.starts|);
    }
  }

  /** Where no two buckets share a stamp, that is the node's cell under every label set and stamp. */
  lemma NodeListsCells(answer: seq<Series>, q: Range, rows: seq<Row>)
    requires Ready(q) && NoDup(Stamps(q.starts))
    ensures NodeLists(answer, q, rows) <==> Answered(answer, NodeCells(q, rows))
  {
    forall labels, stamp
      ensures Values(PointsUpTo(q, rows, labels, |q.starts|), stamp) == Listed(NodeCells(q, rows)(labels, stamp))
    {
      PointsAreCells(q, rows, labels, stamp);
    }
    if Answered(answer, NodeCells(q, rows)) {
      forall labels, stamp ensures Picked(answer, Is(labels), stamp) == Values(PointsUpTo(q, rows, labels, |q.starts|), stamp) {
        assert Picked(answer, Is(labels), stamp) == Listed(NodeCells(q, rows)(labels, stamp));
      }
    }
  }
}
