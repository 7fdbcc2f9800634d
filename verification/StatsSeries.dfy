/** Merging the shards' series.

A shard answers a range of stats as series: a label set and one value for each bucket that has one.
The router files every point under the key of its label set and its stamp, combining the values that
meet there, and emits the series in key order with the stamps ascending. */
module StatsSeries {
  import opened Basics
  import opened Sorting
  import opened Labels
  import opened StatsMerge

  /** A value is None when it does not read as a number. */
  datatype Point = Point(stamp: int, value: Option<int>)
  datatype Series = Series(labels: Labels, points: seq<Point>)

  /** What the router keeps under one key. */
  datatype Acc = Acc(labels: Labels, op: Op, points: map<int, int>)
  type Table = map<string, Acc>

  const NAME := "__name__"

  function NameOf(labels: Labels): string {
    if NAME in labels then labels[NAME] else ""
  }

  /** The operator of a series: without a stats pipe a sum, with one what its output name says. */
  function OpOf(ops: Option<map<string, Op>>, labels: Labels): Option<Op> {
    if ops.None? then Some(Sum)
    else if NameOf(labels) in ops.value then Some(ops.value[NameOf(labels)])
    else None
  }

  // ------------------------------------------------------------------ what is listed under a stamp

  function Values(points: seq<Point>, stamp: int): seq<Option<int>> {
    if points == [] then []
    else
      var last := points[|points| - 1];
      Values(points[..|points| - 1], stamp) + if last.stamp == stamp then [last.value] else []
  }

  /** The values listed at a stamp in the series whose label sets pass a test. */
  function Picked(all: seq<Series>, test: Labels -> bool, stamp: int): seq<Option<int>> {
    if all == [] then []
    else
      var last := all[|all| - 1];
      Picked(all[..|all| - 1], test, stamp) + if test(last.labels) then Values(last.points, stamp) else []
  }

  ghost function Keyed(key: string): Labels -> bool {
    (labels: Labels) => Key(labels) == key
  }

  function Is(labels: Labels): Labels -> bool {
    (other: Labels) => other == labels
  }

  function Flatten<T>(answers: seq<seq<T>>): seq<T> {
    if answers == [] then [] else Flatten(answers[..|answers| - 1]) + answers[|answers| - 1]
  }

  function PointAt(points: map<int, int>, stamp: int): Option<int> {
    if stamp in points then Some(points[stamp]) else None
  }

  lemma {:induction false} OverConcat(op: Op, a: seq<Option<int>>, b: seq<Option<int>>)
    ensures Over(op, a + b) == Join(op, Over(op, a), Over(op, b))
  {
    if b == [] {
      assert a + b == a;
    } else {
      var n := |b| - 1;
      OverConcat(op, a, b[..n]);
      assert (a + b)[..|a| + n] == a + b[..n];
      JoinLaws(op, Over(op, a), Over(op, b[..n]), b[n]);
    }
  }

  lemma OverOne(op: Op, x: Option<int>)
    ensures Over(op, [x]) == x
  {
    assert [x][..0] == [];
  }

  lemma PickedSnoc(all: seq<Series>, se: Series, test: Labels -> bool, stamp: int)
    ensures Picked(all + [se], test, stamp) == Picked(all, test, stamp) + if test(se.labels) then Values(se.points, stamp) else []
  {
    assert (all + [se])[..|all|] == all;
  }

  lemma Regrouped(a: seq<Option<int>>, b: seq<Option<int>>, c: seq<Option<int>>)
    ensures a + b + c == a + (b + c)
  {
  }

  lemma {:induction false} PickedConcat(a: seq<Series>, b: seq<Series>, test: Labels -> bool, stamp: int)
    ensures Picked(a + b, test, stamp) == Picked(a, test, stamp) + Picked(b, test, stamp)
  {
    if b == [] {
      assert a + b == a;
    } else {
      var n := |b| - 1;
      PickedConcat(a, b[..n], test, stamp);
      assert a + b == a + b[..n] + [b[n]];
      PickedSnoc(a + b[..n], b[n], test, stamp);
      Regrouped(Picked(a, test, stamp), Picked(b[..n], test, stamp), if test(b[n].labels) then Values(b[n].points, stamp) else []);
    }
  }

  // ------------------------------------------------------------------ filing

  predicate Unreadable(points: seq<Point>) {
    exists i :: 0 <= i < |points| && points[i].value.None?
  }

  /** Combines the points of one series into what its key holds. */
  method AddPoints(acc: Acc, points: seq<Point>) returns (r: Option<Acc>)
    ensures r.None? <==> Unreadable(points)
    ensures r.Some? ==>
              && r.value.labels == acc.labels && r.value.op == acc.op
              && forall stamp :: PointAt(r.value.points, stamp)
                              == Join(acc.op, PointAt(acc.points, stamp), Over(acc.op, Values(points, stamp)))
  {
    var held := acc.points;
    var i := 0;
    while i < |points|
      invariant 0 <= i <= |points| && forall j | 0 <= j < i :: points[j].value.Some?
      invariant forall stamp :: PointAt(held, stamp)
                             == Join(acc.op, PointAt(acc.points, stamp), Over(acc.op, Values(points[..i], stamp)))
    {
      var p := points[i];
      if p.value.None? { return None; }
      ghost var was := held;
      held := held[p.stamp := if p.stamp in held then Combine(acc.op, held[p.stamp], p.value.value) else p.value.value];
      forall stamp
        ensures PointAt(held, stamp) == Join(acc.op, PointAt(acc.points, stamp), Over(acc.op, Values(points[..i + 1], stamp)))
      {
        assert points[..i + 1][..i] == points[..i];
        OverConcat(acc.op, Values(points[..i], stamp), if p.stamp == stamp then [p.value] else []);
        OverOne(acc.op, p.value);
        JoinLaws(acc.op, PointAt(acc.points, stamp), Over(acc.op, Values(points[..i], stamp)), p.value);
        assert PointAt(was, stamp) == Join(acc.op, PointAt(acc.points, stamp), Over(acc.op, Values(points[..i], stamp)));
      }
      i := i + 1;
    }
    assert points[..i] == points;
    r := Some(Acc(acc.labels, acc.op, held));
  }

  /** i is the first series under a key. */
  ghost predicate First(all: seq<Series>, i: int, key: string) {
    0 <= i < |all| && Key(all[i].labels) == key && forall j | 0 <= j < i :: Key(all[j].labels) != key
  }

  /** A key holds the label set first seen under it, and at every stamp the combination of all the
      values listed there. */
  ghost predicate Filed(ops: Option<map<string, Op>>, acc: Acc, key: string, all: seq<Series>) {
    && (exists i :: First(all, i, key) && acc.labels == all[i].labels)
    && OpOf(ops, acc.labels) == Some(acc.op)
    && forall stamp :: PointAt(acc.points, stamp) == Over(acc.op, Picked(all, Keyed(key), stamp))
  }

  ghost predicate Builds(ops: Option<map<string, Op>>, table: Table, all: seq<Series>) {
    && (forall i | 0 <= i < |all| :: Key(all[i].labels) in table)
    && forall key | key in table :: Filed(ops, table[key], key, all)
  }

  /** What one series is refused for, after those in done. */
  ghost predicate RefusedAfter(ops: Option<map<string, Op>>, done: seq<Series>, se: Series) {
    || Unreadable(se.points)
    || (OpOf(ops, se.labels).None? && forall j | 0 <= j < |done| :: Key(done[j].labels) != Key(se.labels))
  }

  ghost predicate Refused(ops: Option<map<string, Op>>, all: seq<Series>) {
    exists i :: 0 <= i < |all| && RefusedAfter(ops, all[..i], all[i])
  }

  lemma RefusedSnoc(ops: Option<map<string, Op>>, done: seq<Series>, se: Series)
    ensures Refused(ops, done + [se]) <==> Refused(ops, done) || RefusedAfter(ops, done, se)
  {
    var all := done + [se];
    assert all[..|done|] == done && all[|done|] == se;
    forall i | 0 <= i < |done| ensures all[..i] == done[..i] && all[i] == done[i] {}
  }

  lemma {:induction false} RefusedConcat(ops: Option<map<string, Op>>, a: seq<Series>, b: seq<Series>)
    ensures Refused(ops, a) ==> Refused(ops, a + b)
  {
    if Refused(ops, a) {
      var i :| 0 <= i < |a| && RefusedAfter(ops, a[..i], a[i]);
      assert (a + b)[..i] == a[..i] && (a + b)[i] == a[i];
    }
  }

  lemma {:induction false} NotPicked(all: seq<Series>, key: string, stamp: int)
    requires forall j | 0 <= j < |all| :: Key(all[j].labels) != key
    ensures Picked(all, Keyed(key), stamp) == []
  {
    if all != [] { NotPicked(all[..|all| - 1], key, stamp); }
  }

  /** A new series leaves the other keys as they were. */
  lemma FiledElsewhere(ops: Option<map<string, Op>>, acc: Acc, key: string, done: seq<Series>, se: Series)
    requires Filed(ops, acc, key, done) && Key(se.labels) != key
    ensures Filed(ops, acc, key, done + [se])
  {
    var i :| First(done, i, key) && acc.labels == done[i].labels;
    assert First(done + [se], i, key) && acc.labels == (done + [se])[i].labels;
    forall stamp ensures PointAt(acc.points, stamp) == Over(acc.op, Picked(done + [se], Keyed(key), stamp)) {
      PickedSnoc(done, se, Keyed(key), stamp);
      assert !Keyed(key)(se.labels);
      assert Picked(done + [se], Keyed(key), stamp) == Picked(done, Keyed(key), stamp);
    }
  }

  /** Files one series. */
  method FileSeries(ops: Option<map<string, Op>>, table: Table, se: Series, ghost done: seq<Series>) returns (r: Option<Table>)
    requires Builds(ops, table, done)
    ensures r.None? <==> RefusedAfter(ops, done, se)
    ensures r.Some? ==> Builds(ops, r.value, done + [se])
  {
    var key := LabelKey(se.labels);
    var acc;
    if key in table {
      acc := table[key];
    } else {
      var op := OpOf(ops, se.labels);
      if op.None? { return None; }
      acc := Acc(se.labels, op.value, map[]);
    }
    ghost var start := acc;
    assert Before(ops, start, key, done, se) by {
      if key in table { KnownBefore(ops, start, key, done, se); } else { NewBefore(ops, start, key, done, se); }
    }
    var next := AddPoints(acc, se.points);
    if next.None? { return None; }
    FiledHere(ops, start, next.value, key, done, se);
    r := Some(table[key := next.value]);
    forall other | other in r.value ensures Filed(ops, r.value[other], other, done + [se]) {
      if other != key { FiledElsewhere(ops, table[other], other, done, se); }
    }
  }

  /** What a key holds before the points of a series under it are added. */
  ghost predicate Before(ops: Option<map<string, Op>>, acc: Acc, key: string, done: seq<Series>, se: Series) {
    && (exists i :: First(done + [se], i, key) && acc.labels == (done + [se])[i].labels)
    && OpOf(ops, acc.labels) == Some(acc.op)
    && forall stamp :: PointAt(acc.points, stamp) == Over(acc.op, Picked(done, Keyed(key), stamp))
  }

  lemma KnownBefore(ops: Option<map<string, Op>>, acc: Acc, key: string, done: seq<Series>, se: Series)
    requires Filed(ops, acc, key, done)
    ensures Before(ops, acc, key, done, se)
  {
    var i :| First(done, i, key) && acc.labels == done[i].labels;
    assert First(done + [se], i, key) && acc.labels == (done + [se])[i].labels;
  }

  lemma NewBefore(ops: Option<map<string, Op>>, acc: Acc, key: string, done: seq<Series>, se: Series)
    requires key == Key(se.labels) && forall j | 0 <= j < |done| :: Key(done[j].labels) != key
    requires acc.points == map[] && acc.labels == se.labels && OpOf(ops, se.labels) == Some(acc.op)
    ensures Before(ops, acc, key, done, se)
  {
    assert First(done + [se], |done|, key) && acc.labels == (done + [se])[|done|].labels;
    forall stamp ensures Over(acc.op, Picked(done, Keyed(key), stamp)) == None {
      NotPicked(done, key, stamp);
    }
  }

  lemma FiledHere(ops: Option<map<string, Op>>, start: Acc, next: Acc, key: string, done: seq<Series>, se: Series)
    requires Before(ops, start, key, done, se) && key == Key(se.labels)
    requires next.labels == start.labels && next.op == start.op
    requires forall stamp :: PointAt(next.points, stamp)
                          == Join(start.op, PointAt(start.points, stamp), Over(start.op, Values(se.points, stamp)))
    ensures Filed(ops, next, key, done + [se])
  {
    forall stamp ensures PointAt(next.points, stamp) == Over(next.op, Picked(done + [se], Keyed(key), stamp)) {
      PickedSnoc(done, se, Keyed(key), stamp);
      OverConcat(start.op, Picked(done, Keyed(key), stamp), Values(se.points, stamp));
    }
  }

  /** Files every series of every shard's answer, in order. */
  method MergeSeries(ops: Option<map<string, Op>>, answers: seq<seq<Series>>) returns (r: Option<Table>)
    ensures r.None? <==> Refused(ops, Flatten(answers))
    ensures r.Some? ==> Builds(ops, r.value, Flatten(answers))
  {
    var table: Table := map[];
    var s := 0;
    while s < |answers|
      invariant 0 <= s <= |answers|
      invariant Builds(ops, table, Flatten(answers[..s])) && !Refused(ops, Flatten(answers[..s]))
    {
      ghost var before := Flatten(answers[..s]);
      assert before + answers[s][..0] == before;
      var i := 0;
      while i < |answers[s]|
        invariant 0 <= i <= |answers[s]|
        invariant Builds(ops, table, before + answers[s][..i]) && !Refused(ops, before + answers[s][..i])
      {
        ghost var done := before + answers[s][..i];
        var next := FileSeries(ops, table, answers[s][i], done);
        assert before + answers[s][..i + 1] == done + [answers[s][i]];
        RefusedSnoc(ops, done, answers[s][i]);
        if next.None? {
          RestFollows(answers, s, i + 1);
          RefusedConcat(ops, before + answers[s][..i + 1], Rest(answers, s, i + 1));
          return None;
        }
        table := next.value;
        i := i + 1;
      }
      assert answers[s][..i] == answers[s];
      assert answers[..s + 1][..s] == answers[..s];
      s := s + 1;
    }
    assert answers[..s] == answers;
    r := Some(table);
  }

  /** What is still to be filed after the first i series of shard s. */
  function Rest(answers: seq<seq<Series>>, s: nat, i: nat): seq<Series>
    requires s < |answers| && i <= |answers[s]|
    decreases |answers|
  {
    if s == |answers| - 1 then answers[s][i..]
    else Rest(answers[..|answers| - 1], s, i) + answers[|answers| - 1]
  }

  lemma {:induction false} RestFollows(answers: seq<seq<Series>>, s: nat, i: nat)
    requires s < |answers| && i <= |answers[s]|
    ensures Flatten(answers[..s]) + answers[s][..i] + Rest(answers, s, i) == Flatten(answers)
    decreases |answers|
  {
    var n := |answers| - 1;
    if s == n {
      assert answers[s][..i] + answers[s][i..] == answers[s];
    } else {
      RestFollows(answers[..n], s, i);
      assert answers[..n][..s] == answers[..s];
    }
  }

  // ------------------------------------------------------------------ emitting

  const LESS := (a: int, b: int) => a < b

  /** The value a cell lists, if it has one. */
  function Listed(cell: Option<int>): seq<Option<int>> {
    if cell.None? then [] else [cell]
  }

  predicate Ascends(points: seq<Point>) {
    forall i, j | 0 <= i < j < |points| :: points[i].stamp < points[j].stamp
  }

  /** A series lists a key's points, stamps ascending. */
  ghost predicate Shows(se: Series, acc: Acc) {
    && se.labels == acc.labels && Ascends(se.points)
    && forall stamp :: Values(se.points, stamp) == Listed(PointAt(acc.points, stamp))
  }

  /** The series in key order. */
  ghost predicate Emitted(out: seq<Series>, keys: seq<string>, table: Table) {
    && Ordered(LEX, keys) && Elems(keys) == table.Keys && |out| == |keys|
    && forall i | 0 <= i < |keys| :: keys[i] in table && Shows(out[i], table[keys[i]])
  }

  lemma Inhabited(s: set<int>)
    requires s != {}
    ensures exists k :: k in s
  {
    assert (forall k: int :: k !in s) ==> s == {};
  }

  method ListStamps(points: map<int, int>) returns (stamps: seq<int>)
    ensures Ordered(LESS, stamps) && Elems(stamps) == points.Keys
  {
    stamps := [];
    var left := points.Keys;
    while left != {}
      invariant left <= points.Keys && NoDup(stamps)
      invariant forall k :: k in stamps <==> k in points && k !in left
    {
      Inhabited(left);
      var k :| k in left;
      left := left - {k};
      stamps := stamps + [k];
    }
    assert forall k :: k in Elems(stamps) <==> k in points;
    SortOrders(LESS, stamps);
    stamps := Sort(LESS, stamps);
  }

  function PointsOf(stamps: seq<int>, points: map<int, int>): (r: seq<Point>)
    requires forall i | 0 <= i < |stamps| :: stamps[i] in points
    ensures |r| == |stamps|
  {
    seq(|stamps|, i requires 0 <= i < |stamps| => Point(stamps[i], Some(points[stamps[i]])))
  }

  lemma {:induction false} PointsListed(stamps: seq<int>, points: map<int, int>, stamp: int)
    requires Ordered(LESS, stamps) && forall i | 0 <= i < |stamps| :: stamps[i] in points
    ensures Values(PointsOf(stamps, points), stamp) == if stamp in stamps then [Some(points[stamp])] else []
  {
    if stamps != [] {
      var n := |stamps| - 1;
      PointsListed(stamps[..n], points, stamp);
      assert PointsOf(stamps, points)[..n] == PointsOf(stamps[..n], points);
      assert stamps == stamps[..n] + [stamps[n]];
      assert stamps[n] !in stamps[..n] by {
        forall i | 0 <= i < n ensures stamps[i] != stamps[n] { assert LESS(stamps[i], stamps[n]); }
      }
    }
  }

  method ShowSeries(acc: Acc) returns (se: Series)
    ensures Shows(se, acc)
  {
    var stamps := ListStamps(acc.points);
    assert forall i | 0 <= i < |stamps| :: stamps[i] in Elems(stamps);
    se := Series(acc.labels, PointsOf(stamps, acc.points));
    forall i, j | 0 <= i < j < |stamps| ensures stamps[i] < stamps[j] { assert LESS(stamps[i], stamps[j]); }
    forall stamp ensures Values(se.points, stamp) == Listed(PointAt(acc.points, stamp)) {
      PointsListed(stamps, acc.points, stamp);
      assert stamp in stamps <==> stamp in Elems(stamps);
    }
  }

  method EmitSeries(table: Table) returns (out: seq<Series>, keys: seq<string>)
    ensures Emitted(out, keys, table)
  {
    keys := ListKeys(table);
    out := [];
    while |out| < |keys|
      invariant |out| <= |keys|
      invariant forall i | 0 <= i < |out| :: keys[i] in table && Shows(out[i], table[keys[i]])
    {
      assert keys[|out|] in Elems(keys);
      var se := ShowSeries(table[keys[|out|]]);
      out := out + [se];
    }
  }

  method ListKeys(table: Table) returns (keys: seq<string>)
    ensures Ordered(LEX, keys) && Elems(keys) == table.Keys
  {
    keys := [];
    var left := table.Keys;
    while left != {}
      invariant left <= table.Keys && NoDup(keys)
      invariant forall k :: k in keys <==> k in table && k !in left
    {
      var k :| k in left;
      left := left - {k};
      keys := keys + [k];
    }
    assert forall k :: k in Elems(keys) <==> k in table;
    LexTotalOn(Elems(keys));
    SortOrders(LEX, keys);
    keys := Sort(LEX, keys);
  }

  // ------------------------------------------------------------------ the whole merge

  /** A point as a shard sent it: its stamp is None when its text is no number. */
  datatype RawPoint = RawPoint(stamp: Option<int>, value: Option<int>)
  datatype RawSeries = RawSeries(labels: Labels, points: seq<RawPoint>)

  /** What it is filed under. */
  function ReadPoint(p: RawPoint): Point {
    Point(if p.stamp.Some? then p.stamp.value else 0, p.value)
  }

  function ReadSeries(se: RawSeries): Series {
    Series(se.labels, seq(|se.points|, i requires 0 <= i < |se.points| => ReadPoint(se.points[i])))
  }

  function ReadAnswer(answer: seq<RawSeries>): seq<Series> {
    seq(|answer|, i requires 0 <= i < |answer| => ReadSeries(answer[i]))
  }

  function ReadAll(raw: seq<seq<RawSeries>>): seq<seq<Series>> {
    seq(|raw|, s requires 0 <= s < |raw| => ReadAnswer(raw[s]))
  }

  predicate Stamped(se: RawSeries) {
    forall p | 0 <= p < |se.points| :: se.points[p].stamp.Some?
  }

  ghost predicate AllStamped(raw: seq<seq<RawSeries>>) {
    forall s, i | 0 <= s < |raw| && 0 <= i < |raw[s]| :: Stamped(raw[s][i])
  }

  method CheckStamps(raw: seq<seq<RawSeries>>) returns (good: bool)
    ensures good <==> AllStamped(raw)
  {
    for s := 0 to |raw|
      invariant forall t, i | 0 <= t < s && 0 <= i < |raw[t]| :: Stamped(raw[t][i])
    {
      for i := 0 to |raw[s]|
        invariant forall j | 0 <= j < i :: Stamped(raw[s][j])
      {
        if !Stamped(raw[s][i]) { return false; }
      }
    }
    return true;
  }

  /** Refused, or the series in order. A stamp that is no number is found out when the series are written,
      and refuses the answer. */
  method FederatedMatrix(ops: Option<map<string, Op>>, raw: seq<seq<RawSeries>>)
    returns (out: Option<seq<Series>>, ghost table: Table, ghost keys: seq<string>)
    ensures out.None? <==> Refused(ops, Flatten(ReadAll(raw))) || !AllStamped(raw)
    ensures out.Some? ==> Builds(ops, table, Flatten(ReadAll(raw))) && Emitted(out.value, keys, table)
  {
    table, keys := map[], [];
    var built := MergeSeries(ops, ReadAll(raw));
    if built.None? { return None, table, keys; }
    var good := CheckStamps(raw);
    if !good { return None, table, keys; }
    var listed, order := EmitSeries(built.value);
    return Some(listed), built.value, order;
  }
}
