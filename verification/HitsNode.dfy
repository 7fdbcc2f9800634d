/** How a node builds its hits: the rows of a label set are counted by bucket, and the sparse counts are
filled into one value for every bucket of the walk. */
module HitsNode {
  import opened Basics
  import opened Sorting
  import opened Labels
  import opened Merge
  import opened StatsMerge
  import opened StatsSeries
  import opened StatsRange
  import opened StatsNode
  import opened StatsAcc
  import opened StatsHits

  // ------------------------------------------------------------------ counting

  function Tally(rows: seq<Row>, test: Row -> bool): nat {
    if rows == [] then 0 else Tally(rows[..|rows| - 1], test) + if test(rows[|rows| - 1]) then 1 else 0
  }

  lemma TallySnoc(rows: seq<Row>, r: Row, test: Row -> bool)
    ensures Tally(rows + [r], test) == Tally(rows, test) + if test(r) then 1 else 0
  {
    assert (rows + [r])[..|rows|] == rows;
  }

  /** The rows of a label set's group that are inside a part of the window. */
  function Of(h: Histogram, labels: Labels, inside: Row -> bool): Row -> bool {
    (r: Row) => HitLabels(h, r) == Some(labels) && inside(r)
  }

  ghost predicate Occurs(h: Histogram, rows: seq<Row>, labels: Labels) {
    exists r :: r in rows && HitLabels(h, r) == Some(labels)
  }

  /** A cell of hits is the number of rows, present exactly when the label set occurs. */
  lemma {:induction false} SlotIsTally(h: Histogram, rows: seq<Row>, labels: Labels, inside: Row -> bool)
    ensures SlotOf(Sum, rows, HitPart(h, labels, inside)) ==
            if Occurs(h, rows, labels) then Present(Some(Tally(rows, Of(h, labels, inside)))) else Absent
    ensures !Occurs(h, rows, labels) ==> Tally(rows, Of(h, labels, inside)) == 0
  {
    if rows != [] {
      var n := |rows| - 1;
      SlotIsTally(h, rows[..n], labels, inside);
      assert rows == rows[..n] + [rows[n]];
      OccursSnoc(h, rows[..n], rows[n], labels);
    }
  }

  lemma OccursSnoc(h: Histogram, rows: seq<Row>, r: Row, labels: Labels)
    ensures Occurs(h, rows + [r], labels) <==> Occurs(h, rows, labels) || HitLabels(h, r) == Some(labels)
  {
    var all := rows + [r];
    assert r in all && forall x :: x in all <==> x in rows || x == r;
  }

  /** The label sets a node answers for. */
  ghost predicate Answers(h: Histogram, rows: seq<Row>, labels: Labels) {
    Occurs(h, rows, labels) || (h.field == "" && labels == map[])
  }

  lemma CountIsTally(h: Histogram, rows: seq<Row>, labels: Labels, inside: Row -> bool)
    ensures CountIn(h, rows, labels, inside) == if Answers(h, rows, labels) then Some(Tally(rows, Of(h, labels, inside))) else None
  {
    SlotIsTally(h, rows, labels, inside);
  }

  /** In the first n buckets. */
  function Before(h: Histogram, n: nat): Row -> bool {
    (r: Row) => h.bucketOf(r) < n
  }

  lemma {:induction false} TallySplit(h: Histogram, rows: seq<Row>, labels: Labels, n: nat)
    ensures Tally(rows, Of(h, labels, Before(h, n + 1)))
         == Tally(rows, Of(h, labels, Before(h, n))) + Tally(rows, Of(h, labels, InBucket(h, n)))
  {
    if rows != [] { TallySplit(h, rows[..|rows| - 1], labels, n); }
  }

  lemma {:induction false} TallyNone(h: Histogram, rows: seq<Row>, labels: Labels)
    ensures Tally(rows, Of(h, labels, Before(h, 0))) == 0
  {
    if rows != [] { TallyNone(h, rows[..|rows| - 1], labels); }
  }

  lemma {:induction false} TallySame(rows: seq<Row>, a: Row -> bool, b: Row -> bool)
    requires forall r :: a(r) == b(r)
    ensures Tally(rows, a) == Tally(rows, b)
  {
    if rows != [] { TallySame(rows[..|rows| - 1], a, b); }
  }

  // ------------------------------------------------------------------ one label set

  function CountAt(counts: map<nat, nat>, k: nat): nat {
    if k in counts then counts[k] else 0
  }

  /** The sparse counts of a label set's rows by bucket. */
  method Histo(h: Histogram, labels: Labels, rows: seq<Row>) returns (counts: map<nat, nat>)
    ensures forall k :: CountAt(counts, k) == Tally(rows, Of(h, labels, InBucket(h, k)))
  {
    counts := map[];
    var i := 0;
    while i < |rows|
      invariant 0 <= i <= |rows|
      invariant forall k :: CountAt(counts, k) == Tally(rows[..i], Of(h, labels, InBucket(h, k)))
    {
      var r := rows[i];
      ghost var was := counts;
      if HitLabels(h, r) == Some(labels) {
        var b := h.bucketOf(r);
        counts := counts[b := CountAt(counts, b) + 1];
      }
      assert rows[..i + 1] == rows[..i] + [r];
      forall k ensures CountAt(counts, k) == Tally(rows[..i + 1], Of(h, labels, InBucket(h, k))) {
        TallySnoc(rows[..i], r, Of(h, labels, InBucket(h, k)));
        assert CountAt(was, k) == Tally(rows[..i], Of(h, labels, InBucket(h, k)));
      }
      i := i + 1;
    }
    assert rows[..i] == rows;
  }

  /** One value for every bucket of the walk, and their total. */
  ghost predicate FilledSeries(h: Histogram, rows: seq<Row>, se: HitSeries) {
    && |se.stamps| == |se.values| == |h.starts|
    && (forall k: nat | k < |h.starts| :: se.stamps[k] == Some(h.starts[k]) && se.values[k] == Tally(rows, Of(h, se.labels, InBucket(h, k))))
    && se.total == Tally(rows, Of(h, se.labels, InWalk(h)))
  }

  method FillHits(h: Histogram, labels: Labels, rows: seq<Row>) returns (se: HitSeries)
    ensures se.labels == labels && FilledSeries(h, rows, se)
  {
    var counts := Histo(h, labels, rows);
    var stamps: seq<Option<int>>, values: seq<int>, total: int := [], [], 0;
    TallyNone(h, rows, labels);
    while |values| < |h.starts|
      invariant |stamps| == |values| <= |h.starts|
      invariant forall k: nat | k < |values| :: stamps[k] == Some(h.starts[k]) && values[k] == Tally(rows, Of(h, labels, InBucket(h, k)))
      invariant total == Tally(rows, Of(h, labels, Before(h, |values|)))
    {
      var k := |values|;
      TallySplit(h, rows, labels, k);
      var c := CountAt(counts, k);
      stamps, values, total := stamps + [Some(h.starts[k])], values + [c], total + c;
    }
    se := HitSeries(labels, stamps, values, total);
    TallySame(rows, Of(h, labels, Before(h, |h.starts|)), Of(h, labels, InWalk(h)));
  }

  // ------------------------------------------------------------------ all label sets

  /** Each label set that occurs, once. */
  method ListLabels(h: Histogram, rows: seq<Row>) returns (found: seq<Labels>)
    ensures NoDup(found) && forall labels :: labels in found <==> Occurs(h, rows, labels)
  {
    found := [];
    var i := 0;
    while i < |rows|
      invariant 0 <= i <= |rows| && NoDup(found)
      invariant forall labels :: labels in found <==> Occurs(h, rows[..i], labels)
    {
      var labels := HitLabels(h, rows[i]);
      assert rows[..i + 1] == rows[..i] + [rows[i]];
      forall other ensures Occurs(h, rows[..i + 1], other) <==> Occurs(h, rows[..i], other) || labels == Some(other) {
        OccursSnoc(h, rows[..i], rows[i], other);
      }
      if labels.Some? && labels.value !in found { found := found + [labels.value]; }
      i := i + 1;
    }
    assert rows[..i] == rows;
  }

  /** The hits a node answers: what a merge of shards assumes of each of them. */
  method Hits(h: Histogram, rows: seq<Row>) returns (answer: seq<HitSeries>)
    requires NoDup(h.starts)
    ensures HitsAnswered(answer, h, rows)
  {
    var labels: seq<Labels>;
    if h.field == "" {
      labels := [map[]];
    } else {
      labels := ListLabels(h, rows);
    }
    answer := [];
    while |answer| < |labels|
      invariant |answer| <= |labels|
      invariant forall i | 0 <= i < |answer| :: answer[i].labels == labels[i] && FilledSeries(h, rows, answer[i])
    {
      var se := FillHits(h, labels[|answer|], rows);
      answer := answer + [se];
    }
    LabelsListed(h, rows, labels);
    FilledAnswers(h, rows, labels, answer);
  }

  lemma LabelsListed(h: Histogram, rows: seq<Row>, labels: seq<Labels>)
    requires if h.field == "" then labels == [map[]] else NoDup(labels) && forall l :: l in labels <==> Occurs(h, rows, l)
    ensures NoDup(labels) && (forall l :: l in labels <==> Answers(h, rows, l)) && forall i | 0 <= i < |labels| :: OneField(h, labels[i])
  {
    forall l | Occurs(h, rows, l) ensures OneField(h, l) {
      var r :| r in rows && HitLabels(h, r) == Some(l);
    }
    if h.field != "" {
      forall i | 0 <= i < |labels| ensures OneField(h, labels[i]) { assert labels[i] in labels; }
    }
  }

  /** A filled series lists its counts bucket by bucket. */
  lemma FilledValues(h: Histogram, rows: seq<Row>, se: HitSeries, stamp: int)
    requires NoDup(h.starts) && FilledSeries(h, rows, se)
    ensures WellFormed(se)
    ensures var k := IndexOf(h.starts, stamp);
            Values(Zip(se).points, stamp) == if k.None? then [] else [Some(Tally(rows, Of(h, se.labels, InBucket(h, k.value))))]
  {
    var cells := (k: nat) => if k < |se.values| then Some(se.values[k]) else None;
    var i := IndexOf(h.starts, stamp);
    DensePoints(se, h.starts, cells, |h.starts|);
    IndexStands(h.starts, stamp);
    PointsAre(h.starts, cells, |h.starts|, stamp, i);
    assert Zip(se).points[..|h.starts|] == Zip(se).points;
  }

  lemma {:induction false} DensePoints(se: HitSeries, starts: seq<int>, cells: nat -> Option<int>, n: nat)
    requires WellFormed(se) && |se.stamps| == |starts| && n <= |starts|
    requires forall k: nat | k < |starts| :: se.stamps[k] == Some(starts[k]) && cells(k) == Some(se.values[k])
    ensures Zip(se).points[..n] == Points(starts, cells, n)
  {
    if n > 0 {
      DensePoints(se, starts, cells, n - 1);
      assert Zip(se).points[..n] == Zip(se).points[..n - 1] + [Zip(se).points[n - 1]];
    }
  }

  lemma FilledCell(h: Histogram, rows: seq<Row>, labels: seq<Labels>, answer: seq<HitSeries>, l: Labels, stamp: int)
    requires NoDup(h.starts) && NoDup(labels) && (forall x :: x in labels <==> Answers(h, rows, x)) && |answer| == |labels|
    requires AllWellFormed(answer) && forall i | 0 <= i < |answer| :: answer[i].labels == labels[i] && FilledSeries(h, rows, answer[i])
    ensures Picked(ZipAll(answer), Is(l), stamp) == Listed(HitCell(h, rows, l, stamp))
  {
    var k := IndexOf(h.starts, stamp);
    if k.Some? { CountIsTally(h, rows, l, InBucket(h, k.value)); }
    if l in labels {
      var i :| 0 <= i < |labels| && labels[i] == l;
      PickedOnce(ZipAll(answer), i, stamp);
      FilledValues(h, rows, answer[i], stamp);
    } else {
      PickedNone(ZipAll(answer), l, stamp);
    }
  }

  lemma {:induction false} TotalNone(answer: seq<HitSeries>, l: Labels)
    requires forall i | 0 <= i < |answer| :: answer[i].labels != l
    ensures TotalOf(answer, Is(l)) == None
  {
    if answer != [] { TotalNone(answer[..|answer| - 1], l); }
  }

  lemma {:induction false} TotalOnce(answer: seq<HitSeries>, i: nat)
    requires i < |answer| && forall j | 0 <= j < |answer| && j != i :: answer[j].labels != answer[i].labels
    ensures TotalOf(answer, Is(answer[i].labels)) == Some(answer[i].total)
  {
    var n := |answer| - 1;
    if i == n {
      TotalNone(answer[..n], answer[i].labels);
    } else {
      TotalOnce(answer[..n], i);
      assert answer[n].labels != answer[i].labels;
    }
  }

  lemma FilledTotal(h: Histogram, rows: seq<Row>, labels: seq<Labels>, answer: seq<HitSeries>, l: Labels)
    requires NoDup(labels) && (forall x :: x in labels <==> Answers(h, rows, x)) && |answer| == |labels|
    requires forall i | 0 <= i < |answer| :: answer[i].labels == labels[i] && FilledSeries(h, rows, answer[i])
    ensures TotalOf(answer, Is(l)) == CountIn(h, rows, l, InWalk(h))
  {
    CountIsTally(h, rows, l, InWalk(h));
    if l in labels {
      var i :| 0 <= i < |labels| && labels[i] == l;
      TotalOnce(answer, i);
    } else {
      TotalNone(answer, l);
    }
  }

  lemma FilledAnswers(h: Histogram, rows: seq<Row>, labels: seq<Labels>, answer: seq<HitSeries>)
    requires NoDup(h.starts) && NoDup(labels) && (forall x :: x in labels <==> Answers(h, rows, x)) && |answer| == |labels|
    requires forall i | 0 <= i < |labels| :: OneField(h, labels[i])
    requires forall i | 0 <= i < |answer| :: answer[i].labels == labels[i] && FilledSeries(h, rows, answer[i])
    ensures HitsAnswered(answer, h, rows)
  {
    forall l, stamp ensures Picked(ZipAll(answer), Is(l), stamp) == Listed(HitCells(h, rows)(l, stamp)) {
      FilledCell(h, rows, labels, answer, l, stamp);
    }
    forall l ensures TotalOf(answer, Is(l)) == CountIn(h, rows, l, InWalk(h)) {
      FilledTotal(h, rows, labels, answer, l);
    }
  }
}
