/** Merging the shards' hits.

A node answers a count for every bucket of the window under every label set it has, the empty label
set alone when the request splits by no field. The router sums counts and totals under the key of the
label set. No limit on the number of series is set: with one, each shard folds its own tail. */
module StatsHits {
  import opened Basics
  import opened Sorting
  import opened Labels
  import opened Merge
  import opened Planner
  import opened StatsMerge
  import opened StatsSeries
  import opened StatsRange
  import opened StatsNode

  /** A stamp is None when it is no instant the router can represent. */
  datatype HitSeries = HitSeries(labels: Labels, stamps: seq<Option<int>>, values: seq<int>, total: int)

  predicate WellFormed(se: HitSeries) {
    |se.stamps| == |se.values| && forall i | 0 <= i < |se.stamps| :: se.stamps[i].Some?
  }

  predicate AllWellFormed(all: seq<HitSeries>) {
    forall i | 0 <= i < |all| :: WellFormed(all[i])
  }

  /** The two arrays are indexed together. */
  function Zip(se: HitSeries): (r: Series)
    requires WellFormed(se)
    ensures r.labels == se.labels && |r.points| == |se.stamps|
  {
    Series(se.labels, seq(|se.stamps|, i requires 0 <= i < |se.stamps| => Point(se.stamps[i].value, Some(se.values[i]))))
  }

  function ZipAll(all: seq<HitSeries>): (r: seq<Series>)
    requires AllWellFormed(all)
    ensures |r| == |all| && forall i | 0 <= i < |all| :: r[i] == Zip(all[i])
  {
    seq(|all|, i requires 0 <= i < |all| => Zip(all[i]))
  }

  function TotalAt(totals: map<string, int>, key: string): Option<int> {
    if key in totals then Some(totals[key]) else None
  }

  /** The totals listed in the series whose label sets pass a test. */
  function TotalOf(all: seq<HitSeries>, test: Labels -> bool): Option<int> {
    if all == [] then None
    else
      var last := all[|all| - 1];
      Join(Sum, TotalOf(all[..|all| - 1], test), if test(last.labels) then Some(last.total) else None)
  }

  ghost predicate Totals(totals: map<string, int>, all: seq<HitSeries>) {
    forall key :: TotalAt(totals, key) == TotalOf(all, Keyed(key))
  }

  method CheckSeries(se: HitSeries) returns (good: bool)
    ensures good == WellFormed(se)
  {
    if |se.stamps| != |se.values| { return false; }
    for i := 0 to |se.stamps|
      invariant forall j | 0 <= j < i :: se.stamps[j].Some?
    {
      if se.stamps[i].None? { return false; }
    }
    return true;
  }

  lemma ZipSnoc(done: seq<HitSeries>, se: HitSeries)
    requires AllWellFormed(done) && WellFormed(se)
    ensures AllWellFormed(done + [se]) && ZipAll(done + [se]) == ZipAll(done) + [Zip(se)]
  {
  }

  /** What the router holds after the series in done. */
  datatype Merging = Merging(table: Table, totals: map<string, int>)

  ghost predicate Holds(m: Merging, done: seq<HitSeries>) {
    AllWellFormed(done) && Builds(None, m.table, ZipAll(done)) && Totals(m.totals, done)
  }

  /** Adds up the buckets and the total of one series, or refuses it. */
  method FileHits(m: Merging, se: HitSeries, ghost done: seq<HitSeries>) returns (r: Option<Merging>)
    requires Holds(m, done)
    ensures r.None? <==> !WellFormed(se)
    ensures r.Some? ==> Holds(r.value, done + [se])
  {
    var good := CheckSeries(se);
    if !good { return None; }
    var table := FileBuckets(m.table, se, done);
    var key := LabelKey(se.labels);
    var totals := AddTotal(m.totals, key, se.total);
    TotalsStep(m.totals, totals, se, done);
    r := Some(Merging(table, totals));
  }

  method AddTotal(totals: map<string, int>, key: string, total: int) returns (r: map<string, int>)
    ensures forall k :: TotalAt(r, k) == Join(Sum, TotalAt(totals, k), if k == key then Some(total) else None)
  {
    r := totals[key := (if key in totals then totals[key] else 0) + total];
  }

  method FileBuckets(table: Table, se: HitSeries, ghost done: seq<HitSeries>) returns (r: Table)
    requires AllWellFormed(done) && Builds(None, table, ZipAll(done)) && WellFormed(se)
    ensures AllWellFormed(done + [se]) && Builds(None, r, ZipAll(done + [se]))
  {
    ZipSnoc(done, se);
    var next := FileSeries(None, table, Zip(se), ZipAll(done));
    r := next.value;
  }

  lemma TotalsStep(totals: map<string, int>, next: map<string, int>, se: HitSeries, done: seq<HitSeries>)
    requires Totals(totals, done)
    requires forall k :: TotalAt(next, k) == Join(Sum, TotalAt(totals, k), if k == Key(se.labels) then Some(se.total) else None)
    ensures Totals(next, done + [se])
  {
    forall k ensures TotalAt(next, k) == TotalOf(done + [se], Keyed(k)) {
      TotalSnoc(done, se, k);
    }
  }

  lemma TotalSnoc(done: seq<HitSeries>, se: HitSeries, key: string)
    ensures TotalOf(done + [se], Keyed(key))
         == Join(Sum, TotalOf(done, Keyed(key)), if key == Key(se.labels) then Some(se.total) else None)
  {
    assert (done + [se])[..|done|] == done;
  }

  method FederatedHits(answers: seq<seq<HitSeries>>) returns (r: Option<Merging>)
    ensures r.None? <==> !AllWellFormed(Flatten(answers))
    ensures r.Some? ==> Holds(r.value, Flatten(answers))
  {
    var m := Merging(map[], map[]);
    var s := 0;
    while s < |answers|
      invariant 0 <= s <= |answers| && Holds(m, Flatten(answers[..s]))
    {
      ghost var before := Flatten(answers[..s]);
      assert before + answers[s][..0] == before;
      var i := 0;
      while i < |answers[s]|
        invariant 0 <= i <= |answers[s]| && Holds(m, before + answers[s][..i])
      {
        var next := FileHits(m, answers[s][i], before + answers[s][..i]);
        assert before + answers[s][..i + 1] == before + answers[s][..i] + [answers[s][i]];
        if next.None? {
          JoinedMember(answers, s, i);
          return None;
        }
        m := next.value;
        i := i + 1;
      }
      assert answers[s][..i] == answers[s];
      assert answers[..s + 1][..s] == answers[..s];
      s := s + 1;
    }
    assert answers[..s] == answers;
    r := Some(m);
  }

  lemma {:induction false} JoinedMember(answers: seq<seq<HitSeries>>, s: nat, i: nat)
    requires s < |answers| && i < |answers[s]|
    ensures exists j :: 0 <= j < |Flatten(answers)| && Flatten(answers)[j] == answers[s][i]
  {
    var n := |answers| - 1;
    var before := Flatten(answers[..n]);
    if s == n {
      assert Flatten(answers)[|before| + i] == answers[s][i];
    } else {
      JoinedMember(answers[..n], s, i);
      var j :| 0 <= j < |before| && before[j] == answers[..n][s][i];
      assert Flatten(answers)[j] == answers[s][i];
    }
  }

  // ------------------------------------------------------------------ a node's hits

  /** field: what the request splits by, or empty; valueOf: what a row holds there. */
  datatype Histogram = Histogram(field: string, valueOf: Row -> Option<string>, starts: seq<int>, bucketOf: Row -> nat)

  function HitLabels(h: Histogram, r: Row): Option<Labels> {
    if h.field == "" then Some(map[])
    else
      var v := h.valueOf(r);
      if v.None? then None else Some(map[h.field := v.value])
  }

  /** Every row of a label set's group counts one in its bucket and nothing in the others. */
  function HitPart(h: Histogram, labels: Labels, inside: Row -> bool): Row -> Slot {
    (r: Row) => if HitLabels(h, r) == Some(labels) then Present(Some(if inside(r) then 1 else 0)) else Absent
  }

  /** The undivided histogram is answered even where there is no row. */
  function Dense(h: Histogram, labels: Labels, cell: Option<int>): Option<int> {
    if cell.None? && h.field == "" && labels == map[] then Some(0) else cell
  }

  function InBucket(h: Histogram, k: nat): Row -> bool {
    (r: Row) => h.bucketOf(r) == k
  }

  function InWalk(h: Histogram): Row -> bool {
    (r: Row) => h.bucketOf(r) < |h.starts|
  }

  function CountIn(h: Histogram, rows: seq<Row>, labels: Labels, inside: Row -> bool): Option<int> {
    Dense(h, labels, Cell(Sum, rows, HitPart(h, labels, inside)))
  }

  function HitCell(h: Histogram, rows: seq<Row>, labels: Labels, stamp: int): Option<int> {
    var k := IndexOf(h.starts, stamp);
    if k.None? then None else CountIn(h, rows, labels, InBucket(h, k.value))
  }

  function HitCells(h: Histogram, rows: seq<Row>): Cells {
    (labels: Labels, stamp: int) => HitCell(h, rows, labels, stamp)
  }

  /** What a shard answers over its own rows. */
  ghost predicate HitsAnswered(answer: seq<HitSeries>, h: Histogram, rows: seq<Row>) {
    && AllWellFormed(answer) && Answered(ZipAll(answer), HitCells(h, rows))
    && (forall i | 0 <= i < |answer| :: OneField(h, answer[i].labels))
    && forall labels :: TotalOf(answer, Is(labels)) == CountIn(h, rows, labels, InWalk(h))
  }

  predicate OneField(h: Histogram, labels: Labels) {
    if h.field == "" then labels == map[] else labels.Keys == {h.field}
  }

  function ShardCounts(h: Histogram, rows: seq<Row>, home: Row -> nat, shards: nat, labels: Labels, inside: Row -> bool): (r: seq<Option<int>>)
    ensures |r| == shards
  {
    seq(shards, s requires 0 <= s < shards => CountIn(h, Part(rows, home, s), labels, inside))
  }

  lemma {:induction false} OverDense(cells: seq<Option<int>>, dense: seq<Option<int>>)
    requires |cells| == |dense|
    requires forall s | 0 <= s < |cells| :: dense[s] == if cells[s].None? then Some(0) else cells[s]
    ensures Over(Sum, dense) == if |cells| == 0 then None else if Over(Sum, cells).None? then Some(0) else Over(Sum, cells)
  {
    if |cells| > 0 {
      var n := |cells| - 1;
      OverDense(cells[..n], dense[..n]);
    }
  }

  /** Counts over any part of the window sum to the node's. */
  lemma CountsSum(h: Histogram, rows: seq<Row>, home: Row -> nat, shards: nat, labels: Labels, inside: Row -> bool)
    requires shards > 0 && forall r :: home(r) < shards
    ensures Over(Sum, ShardCounts(h, rows, home, shards, labels, inside)) == CountIn(h, rows, labels, inside)
  {
    var part := HitPart(h, labels, inside);
    var cells := Print(Slots(Sum, rows, part, home, shards));
    MergeIsWholeExactly(Sum, rows, part, home, shards);
    var counts := ShardCounts(h, rows, home, shards, labels, inside);
    if h.field == "" && labels == map[] {
      OverDense(cells, counts);
    } else {
      assert counts == cells;
    }
  }

  lemma HitCellsSum(h: Histogram, rows: seq<Row>, home: Row -> nat, shards: nat, labels: Labels, stamp: int)
    requires shards > 0 && forall r :: home(r) < shards
    ensures Combined(Sum, HitParts(h, rows, home, shards))(labels, stamp) == HitCells(h, rows)(labels, stamp)
  {
    var parts := HitParts(h, rows, home, shards);
    var k := IndexOf(h.starts, stamp);
    if k.None? {
      OverNothing(Sum, Across(parts, labels, stamp));
    } else {
      CountsSum(h, rows, home, shards, labels, InBucket(h, k.value));
      assert Across(parts, labels, stamp) == ShardCounts(h, rows, home, shards, labels, InBucket(h, k.value));
    }
  }

  function HitParts(h: Histogram, rows: seq<Row>, home: Row -> nat, shards: nat): (r: seq<Cells>)
    ensures |r| == shards
  {
    seq(shards, s requires 0 <= s < shards => HitCells(h, Part(rows, home, s)))
  }

  // ------------------------------------------------------------------ keys and totals

  /** Label sets of at most one field never share a key, whatever their values hold. */
  lemma HitKeysApart(h: Histogram, all: seq<Series>)
    requires forall i | 0 <= i < |all| :: OneField(h, all[i].labels)
    ensures KeysApart(all)
  {
    forall i, j | 0 <= i < |all| && 0 <= j < |all| && Key(all[i].labels) == Key(all[j].labels)
      ensures all[i].labels == all[j].labels
    {
      var a, b := all[i].labels, all[j].labels;
      if h.field != "" {
        assert a == map[h.field := a[h.field]] && b == map[h.field := b[h.field]];
        OneNameInjective(h.field, a[h.field], b[h.field]);
      }
    }
  }

  lemma {:induction false} TotalsConcat(a: seq<HitSeries>, b: seq<HitSeries>, test: Labels -> bool)
    ensures TotalOf(a + b, test) == Join(Sum, TotalOf(a, test), TotalOf(b, test))
  {
    if b == [] {
      assert a + b == a;
    } else {
      var n := |b| - 1;
      TotalsConcat(a, b[..n], test);
      assert (a + b)[..|a| + n] == a + b[..n] && (a + b)[|a| + n] == b[n];
      JoinLaws(Sum, TotalOf(a, test), TotalOf(b[..n], test), if test(b[n].labels) then Some(b[n].total) else None);
    }
  }

  lemma {:induction false} TotalsAcross(answers: seq<seq<HitSeries>>, test: Labels -> bool, totals: seq<Option<int>>)
    requires |answers| == |totals| && forall s | 0 <= s < |answers| :: TotalOf(answers[s], test) == totals[s]
    ensures TotalOf(Flatten(answers), test) == Over(Sum, totals)
  {
    if answers != [] {
      var n := |answers| - 1;
      TotalsAcross(answers[..n], test, totals[..n]);
      TotalsConcat(Flatten(answers[..n]), answers[n], test);
    }
  }

  lemma {:induction false} ZipJoined(answers: seq<seq<HitSeries>>, zipped: seq<seq<Series>>)
    requires |zipped| == |answers| && forall s | 0 <= s < |answers| :: AllWellFormed(answers[s]) && zipped[s] == ZipAll(answers[s])
    ensures AllWellFormed(Flatten(answers)) && ZipAll(Flatten(answers)) == Flatten(zipped)
  {
    if answers != [] {
      var n := |answers| - 1;
      ZipJoined(answers[..n], zipped[..n]);
      ZipConcat(Flatten(answers[..n]), answers[n]);
    }
  }

  lemma ZipConcat(a: seq<HitSeries>, b: seq<HitSeries>)
    requires AllWellFormed(a) && AllWellFormed(b)
    ensures AllWellFormed(a + b) && ZipAll(a + b) == ZipAll(a) + ZipAll(b)
  {
  }

  lemma {:induction false} JoinedFields(h: Histogram, answers: seq<seq<HitSeries>>)
    requires forall s, i | 0 <= s < |answers| && 0 <= i < |answers[s]| :: OneField(h, answers[s][i].labels)
    ensures forall i | 0 <= i < |Flatten(answers)| :: OneField(h, Flatten(answers)[i].labels)
  {
    if answers != [] {
      var n := |answers| - 1;
      forall s, i | 0 <= s < n && 0 <= i < |answers[..n][s]| ensures OneField(h, answers[..n][s][i].labels) {
        assert answers[..n][s] == answers[s];
      }
      JoinedFields(h, answers[..n]);
    }
  }

  lemma {:induction false} SameTotals(all: seq<HitSeries>, a: Labels -> bool, b: Labels -> bool)
    requires forall i | 0 <= i < |all| :: a(all[i].labels) == b(all[i].labels)
    ensures TotalOf(all, a) == TotalOf(all, b)
  {
    if all != [] {
      var n := |all| - 1;
      forall i | 0 <= i < n ensures a(all[..n][i].labels) == b(all[..n][i].labels) { assert all[..n][i] == all[i]; }
      SameTotals(all[..n], a, b);
    }
  }

  ghost predicate HitsAsked(h: Histogram, rows: seq<Row>, home: Row -> nat, answers: seq<seq<HitSeries>>) {
    && |answers| > 0 && NoDup(h.starts) && (forall r :: home(r) < |answers|)
    && forall s | 0 <= s < |answers| :: HitsAnswered(answers[s], h, Part(rows, home, s))
  }

  lemma HitsNotRefused(h: Histogram, rows: seq<Row>, home: Row -> nat, answers: seq<seq<HitSeries>>)
    requires HitsAsked(h, rows, home, answers)
    ensures AllWellFormed(Flatten(answers)) && ZipAll(Flatten(answers)) == Flatten(Zipped(h, rows, home, answers))
  {
    ZipJoined(answers, Zipped(h, rows, home, answers));
  }

  ghost function Zipped(h: Histogram, rows: seq<Row>, home: Row -> nat, answers: seq<seq<HitSeries>>): seq<seq<Series>>
    requires HitsAsked(h, rows, home, answers)
  {
    seq(|answers|, s requires 0 <= s < |answers| && AllWellFormed(answers[s]) => ZipAll(answers[s]))
  }

  /** The merged histogram is the node's: under every label set and bucket it lists exactly the count
      one node holding all the rows answers, and nothing else. */
  lemma HitsAreNode(h: Histogram, rows: seq<Row>, home: Row -> nat, answers: seq<seq<HitSeries>>,
                    m: Merging, out: seq<Series>, keys: seq<string>)
    requires HitsAsked(h, rows, home, answers) && Holds(m, Flatten(answers)) && Emitted(out, keys, m.table)
    ensures Answered(out, HitCells(h, rows))
  {
    var zipped := Zipped(h, rows, home, answers);
    HitsNotRefused(h, rows, home, answers);
    var parts := HitParts(h, rows, home, |answers|);
    JoinedFields(h, answers);
    HitKeysApart(h, Flatten(zipped));
    RouterAnswers(None, Sum, zipped, parts, m.table, out, keys);
    forall labels, stamp ensures Combined(Sum, parts)(labels, stamp) == HitCells(h, rows)(labels, stamp) {
      HitCellsSum(h, rows, home, |answers|, labels, stamp);
    }
    AnsweredExactly(out, Combined(Sum, parts), HitCells(h, rows));
  }

  lemma FieldKeys(h: Histogram, a: Labels, b: Labels)
    requires OneField(h, a) && OneField(h, b)
    ensures Key(a) == Key(b) <==> a == b
  {
    var pair := [Series(a, []), Series(b, [])];
    HitKeysApart(h, pair);
    assert pair[0].labels == a && pair[1].labels == b;
  }

  /** And the total under a label set is the node's. */
  lemma TotalsAreNode(h: Histogram, rows: seq<Row>, home: Row -> nat, answers: seq<seq<HitSeries>>,
                      m: Merging, labels: Labels)
    requires HitsAsked(h, rows, home, answers) && Holds(m, Flatten(answers)) && OneField(h, labels)
    ensures TotalAt(m.totals, Key(labels)) == CountIn(h, rows, labels, InWalk(h))
  {
    var all := Flatten(answers);
    JoinedFields(h, answers);
    forall i | 0 <= i < |all| ensures Keyed(Key(labels))(all[i].labels) == Is(labels)(all[i].labels) {
      FieldKeys(h, all[i].labels, labels);
    }
    SameTotals(all, Keyed(Key(labels)), Is(labels));
    var counts := ShardCounts(h, rows, home, |answers|, labels, InWalk(h));
    TotalsAcross(answers, Is(labels), counts);
    CountsSum(h, rows, home, |answers|, labels, InWalk(h));
  }
}
