/** What one node answers to a range of stats, and the cluster's answer against it. */
module StatsNode {
  import opened Basics
  import opened Sorting
  import opened Labels
  import opened Merge
  import opened Planner
  import opened PlannerProof
  import opened StatsMerge
  import opened StatsSeries
  import opened StatsRange

  // ------------------------------------------------------------------ a stats query

  datatype AggKind = Count | Total | Minimum | Maximum | TextLength | Empties | Unmergeable

  /** sample is what a row gives the aggregate, if it gives anything. */
  datatype Agg = Agg(kind: AggKind, alias: string, sample: Row -> Option<int>)

  datatype Stage = Piped(pipe: Pipe) | Grouped(fields: seq<string>, aggs: seq<Agg>)

  predicate Mergeable(aggs: seq<Agg>) {
    forall i | 0 <= i < |aggs| :: aggs[i].kind != Unmergeable
  }

  function MergeOpFor(kind: AggKind): Option<Op> {
    match kind
    case Count => Some(Sum)
    case Total => Some(Sum)
    case TextLength => Some(Sum)
    case Empties => Some(Sum)
    case Minimum => Some(Least)
    case Maximum => Some(Greatest)
    case Unmergeable => None
  }

  /** The operator of each output name; of two outputs of one name the later one's. */
  method MergeOps(aggs: seq<Agg>) returns (ops: Option<map<string, Op>>)
    ensures ops == OpsOf(aggs)
    ensures ops.None? <==> exists i :: 0 <= i < |aggs| && aggs[i].kind == Unmergeable
    ensures ops.Some? ==> forall name :: name in ops.value <==> exists i :: 0 <= i < |aggs| && aggs[i].alias == name
    ensures ops.Some? ==> forall i | 0 <= i < |aggs| && (forall j | i < j < |aggs| :: aggs[j].alias != aggs[i].alias) ::
              ops.value[aggs[i].alias] == match aggs[i].kind case Minimum => Least case Maximum => Greatest case _ => Sum
  {
    OpsExactly(aggs);
    var found: map<string, Op> := map[];
    var i := 0;
    assert aggs[..0] == [];
    while i < |aggs|
      invariant 0 <= i <= |aggs| && OpsOf(aggs[..i]) == Some(found)
    {
      assert aggs[..i + 1][..i] == aggs[..i];
      var op := MergeOpFor(aggs[i].kind);
      if op.None? {
        OpsRefused(aggs, i);
        return None;
      }
      found := found[aggs[i].alias := op.value];
      i := i + 1;
    }
    assert aggs[..i] == aggs;
    ops := Some(found);
  }

  function OpsOf(aggs: seq<Agg>): Option<map<string, Op>> {
    if aggs == [] then Some(map[])
    else
      var n := |aggs| - 1;
      var rest, op := OpsOf(aggs[..n]), MergeOpFor(aggs[n].kind);
      if rest.None? || op.None? then None else Some(rest.value[aggs[n].alias := op.value])
  }

  lemma {:induction false} OpsRefused(aggs: seq<Agg>, i: nat)
    requires i < |aggs| && MergeOpFor(aggs[i].kind).None?
    ensures OpsOf(aggs).None?
  {
    if i < |aggs| - 1 { OpsRefused(aggs[..|aggs| - 1], i); }
  }

  /** Every aggregate the planner calls mergeable has an operator, and its name finds it. */
  lemma {:induction false} OpsRight(aggs: seq<Agg>, i: nat)
    requires Mergeable(aggs) && i < |aggs|
    requires forall j | i < j < |aggs| :: aggs[j].alias != aggs[i].alias
    ensures var ops := OpsOf(aggs);
            ops.Some? && aggs[i].alias in ops.value && Some(ops.value[aggs[i].alias]) == MergeOpFor(aggs[i].kind)
  {
    var n := |aggs| - 1;
    OpsKnown(aggs[..n]);
    if i < n { OpsRight(aggs[..n], i); }
  }

  lemma {:induction false} OpsKnown(aggs: seq<Agg>)
    requires Mergeable(aggs)
    ensures OpsOf(aggs).Some?
  {
    if aggs != [] { OpsKnown(aggs[..|aggs| - 1]); }
  }

  lemma {:induction false} OpsNames(aggs: seq<Agg>, name: string)
    requires OpsOf(aggs).Some?
    ensures name in OpsOf(aggs).value <==> exists i :: 0 <= i < |aggs| && aggs[i].alias == name
  {
    if aggs != [] {
      var n := |aggs| - 1;
      OpsNames(aggs[..n], name);
      if i :| 0 <= i < n && aggs[..n][i].alias == name { assert aggs[i].alias == name; }
      if i :| 0 <= i < n && aggs[i].alias == name { assert aggs[..n][i].alias == name; }
      assert aggs[n].alias == name ==> exists i :: 0 <= i < |aggs| && aggs[i].alias == name;
    }
  }

  /** Refused exactly when some aggregate cannot be merged; otherwise every output name has the operator
      of the last aggregate under it: the least of minima, the greatest of maxima, the sum of the rest. */
  lemma OpsExactly(aggs: seq<Agg>)
    ensures OpsOf(aggs).None? <==> exists i :: 0 <= i < |aggs| && aggs[i].kind == Unmergeable
    ensures OpsOf(aggs).Some? ==> forall name :: name in OpsOf(aggs).value <==> exists i :: 0 <= i < |aggs| && aggs[i].alias == name
    ensures OpsOf(aggs).Some? ==> forall i | 0 <= i < |aggs| && (forall j | i < j < |aggs| :: aggs[j].alias != aggs[i].alias) ::
              OpsOf(aggs).value[aggs[i].alias] == match aggs[i].kind case Minimum => Least case Maximum => Greatest case _ => Sum
  {
    if i :| 0 <= i < |aggs| && aggs[i].kind == Unmergeable {
      OpsRefused(aggs, i);
    } else {
      OpsKnown(aggs);
      forall name ensures name in OpsOf(aggs).value <==> exists i :: 0 <= i < |aggs| && aggs[i].alias == name {
        OpsNames(aggs, name);
      }
      forall i | 0 <= i < |aggs| && (forall j | i < j < |aggs| :: aggs[j].alias != aggs[i].alias)
        ensures aggs[i].alias in OpsOf(aggs).value
        ensures OpsOf(aggs).value[aggs[i].alias] == match aggs[i].kind case Minimum => Least case Maximum => Greatest case _ => Sum
      {
        OpsRight(aggs, i);
      }
    }
  }

  function KindOf(stage: Stage): Kind {
    match stage
    case Piped(pipe) => if Pushable(pipe) then RowLocal else Other
    case Grouped(_, aggs) => Stats(Mergeable(aggs))
  }

  function Kinds(query: seq<Stage>): (r: seq<Kind>)
    ensures |r| == |query|
  {
    seq(|query|, i requires 0 <= i < |query| => KindOf(query[i]))
  }

  /** Row-local pipes and then one aggregate the shards' answers to can be merged. */
  predicate Shaped(query: seq<Stage>) {
    && |query| > 0 && query[|query| - 1].Grouped? && Mergeable(query[|query| - 1].aggs)
    && forall i | 0 <= i < |query| - 1 :: query[i].Piped? && Pushable(query[i].pipe)
  }

  lemma MergedShape(query: seq<Stage>)
    requires HasStats(Kinds(query))
    ensures !NeedsExact(Kinds(query)) <==> Shaped(query)
  {
    var kinds := Kinds(query);
    MergedExactly(kinds);
    forall i | 0 <= i < |query| - 1 ensures kinds[i] == RowLocal <==> query[i].Piped? && Pushable(query[i].pipe) {}
  }

  function Pre(query: seq<Stage>): (r: seq<Pipe>)
    requires Shaped(query)
    ensures Pushables(r)
  {
    seq(|query| - 1, i requires 0 <= i < |query| - 1 => query[i].pipe)
  }

  // ------------------------------------------------------------------ a node's cells

  /** The label set of a row's group: its grouping fields, and the output's name. */
  function LabelsOf(fields: seq<string>, alias: string, r: Row): Labels {
    (map f | f in fields :: Lookup(r.fields, f)) + if alias == "" then map[] else map[NAME := alias]
  }

  /** A stats pipe with an output, its names clear of its grouping fields and of each other. */
  predicate Named(stage: Stage) {
    && stage.Grouped? && |stage.aggs| > 0
    && NAME !in stage.fields && stage.aggs[0].alias !in stage.fields
    && forall j | 0 < j < |stage.aggs| :: stage.aggs[j].alias != stage.aggs[0].alias
  }

  function GroupPart(stage: Stage, labels: Labels): Row -> Slot
    requires Named(stage)
  {
    (r: Row) => if LabelsOf(stage.fields, stage.aggs[0].alias, r) == labels then Present(stage.aggs[0].sample(r)) else Absent
  }

  const SECOND: int := 1_000_000_000

  /** A bucket's stamp: its start in whole seconds, truncated toward zero. */
  function Stamp(start: int): int {
    if start >= 0 then start / SECOND else -((-start) / SECOND)
  }

  function Stamps(starts: seq<int>): (r: seq<int>)
    ensures |r| == |starts|
  {
    seq(|starts|, k requires 0 <= k < |starts| => Stamp(starts[k]))
  }

  function IndexOf(stamps: seq<int>, stamp: int): (r: Option<nat>)
    ensures r.Some? ==> r.value < |stamps| && stamps[r.value] == stamp
    ensures r.None? ==> stamp !in stamps
  {
    if stamps == [] then None
    else if stamps[0] == stamp then Some(0)
    else
      var rest := IndexOf(stamps[1..], stamp);
      if rest.None? then None else Some(rest.value + 1)
  }

  /** A range query: its pipeline, the starts of its buckets and the bucket a row falls into. */
  datatype Range = Range(query: seq<Stage>, starts: seq<int>, bucketOf: Row -> nat)

  /** A stats query the router answers by merging, so of the shape that takes, with a named output. */
  predicate Ready(q: Range): (r: bool)
    ensures r ==> Shaped(q.query)
  {
    && HasStats(Kinds(q.query)) && !NeedsExact(Kinds(q.query))
    && (MergedShape(q.query); Named(Last(q.query)))
  }

  function Last(query: seq<Stage>): Stage
    requires |query| > 0
  {
    query[|query| - 1]
  }

  function OpIn(q: Range): Op
    requires Ready(q)
  {
    MergeOpFor(Last(q.query).aggs[0].kind).value
  }

  /** The rows of bucket k after the pipes before the aggregate. */
  function Fed(q: Range, rows: seq<Row>, k: nat): seq<Row>
    requires Ready(q)
  {
    ApplyAll(Pre(q.query), Part(rows, q.bucketOf, k))
  }

  /** One cell for each label set and bucket: the query is run for each bucket on its own. */
  function NodeCell(q: Range, rows: seq<Row>, labels: Labels, stamp: int): Option<int>
    requires Ready(q)
  {
    var k := IndexOf(Stamps(q.starts), stamp);
    if k.None? then None else Cell(OpIn(q), Fed(q, rows, k.value), GroupPart(Last(q.query), labels))
  }

  function NodeCells(q: Range, rows: seq<Row>): Cells
    requires Ready(q)
  {
    (labels: Labels, stamp: int) => NodeCell(q, rows, labels, stamp)
  }

  // ------------------------------------------------------------------ the cluster against the node

  function Held(q: Range, rows: seq<Row>, home: Row -> nat, shards: nat, labels: Labels, k: nat): seq<Slot>
    requires Ready(q)
  {
    SlotsThrough(OpIn(q), Pre(q.query), Part(rows, q.bucketOf, k), GroupPart(Last(q.query), labels), home, shards)
  }

  /** No shard prints a zero that passes the true extreme of a group in bucket k. */
  predicate Kept(q: Range, rows: seq<Row>, home: Row -> nat, shards: nat, labels: Labels, k: nat)
    requires Ready(q)
  {
    || !Lacking(Held(q, rows, home, shards, labels, k))
    || ZeroHarmless(OpIn(q), SlotOf(OpIn(q), Fed(q, rows, k), GroupPart(Last(q.query), labels)))
  }

  function Parts(q: Range, rows: seq<Row>, home: Row -> nat, shards: nat): (r: seq<Cells>)
    requires Ready(q)
    ensures |r| == shards
  {
    seq(shards, s requires 0 <= s < shards => NodeCells(q, Part(rows, home, s)))
  }

  lemma {:induction false} PartsCommute(rows: seq<Row>, home: Row -> nat, s: nat, bucketOf: Row -> nat, k: nat)
    ensures Part(Part(rows, home, s), bucketOf, k) == Part(Part(rows, bucketOf, k), home, s)
  {
    if rows != [] {
      var n := |rows| - 1;
      PartsCommute(rows[..n], home, s, bucketOf, k);
      PartSnoc(Part(rows[..n], home, s), bucketOf, k, rows[n]);
      PartSnoc(Part(rows[..n], bucketOf, k), home, s, rows[n]);
    }
  }

  lemma PartSnoc(rows: seq<Row>, home: Row -> nat, s: nat, r: Row)
    ensures Part(rows + [r], home, s) == Part(rows, home, s) + if home(r) == s then [r] else []
    ensures Part(rows + [], home, s) == Part(rows, home, s)
  {
    assert (rows + [r])[..|rows|] == rows && rows + [] == rows;
  }

  lemma {:induction false} OverNothing(op: Op, cells: seq<Option<int>>)
    requires forall s | 0 <= s < |cells| :: cells[s] == None
    ensures Over(op, cells) == None
  {
    if cells != [] { OverNothing(op, cells[..|cells| - 1]); }
  }

  /** A shard's cell in bucket k, the bucket's rows taken first. */
  lemma ShardCell(q: Range, rows: seq<Row>, home: Row -> nat, s: nat, labels: Labels, stamp: int, k: nat)
    requires Ready(q) && IndexOf(Stamps(q.starts), stamp) == Some(k)
    ensures NodeCells(q, Part(rows, home, s))(labels, stamp)
         == Printed(SlotOf(OpIn(q), ApplyAll(Pre(q.query), Part(Part(rows, q.bucketOf, k), home, s)), GroupPart(Last(q.query), labels)))
  {
    PartsCommute(rows, home, s, q.bucketOf, k);
  }

  /** One cell of the cluster is the node's exactly where no printed zero passes it. */
  lemma CellIsNodeExactly(q: Range, rows: seq<Row>, home: Row -> nat, shards: nat, labels: Labels, stamp: int)
    requires Ready(q) && forall r :: home(r) < shards
    ensures Combined(OpIn(q), Parts(q, rows, home, shards))(labels, stamp) == NodeCells(q, rows)(labels, stamp) <==>
            (var k := IndexOf(Stamps(q.starts), stamp); k.Some? ==> Kept(q, rows, home, shards, labels, k.value))
  {
    var op, pre, part := OpIn(q), Pre(q.query), GroupPart(Last(q.query), labels);
    var parts := Parts(q, rows, home, shards);
    var k := IndexOf(Stamps(q.starts), stamp);
    if k.None? {
      OverNothing(op, Across(parts, labels, stamp));
    } else {
      var inside := Part(rows, q.bucketOf, k.value);
      StatsIsNodeExactly(op, pre, inside, part, home, shards);
      forall s: nat | s < shards
        ensures parts[s](labels, stamp) == Printed(SlotOf(op, ApplyAll(pre, Part(inside, home, s)), part))
      {
        ShardCell(q, rows, home, s, labels, stamp, k.value);
      }
      assert Across(parts, labels, stamp) == Print(Held(q, rows, home, shards, labels, k.value));
    }
  }

  lemma {:induction false} ValuesMember(points: seq<Point>, i: nat)
    requires i < |points|
    ensures points[i].value in Values(points, points[i].stamp)
  {
    var n := |points| - 1;
    if i < n { ValuesMember(points[..n], i); }
  }

  /** A listed point is a cell of its label set. */
  lemma ListedIsCell(answer: seq<Series>, cells: Cells, i: nat, p: nat)
    requires Answered(answer, cells) && i < |answer| && p < |answer[i].points|
    ensures answer[i].points[p].value.Some? && cells(answer[i].labels, answer[i].points[p].stamp) == answer[i].points[p].value
  {
    var labels, stamp := answer[i].labels, answer[i].points[p].stamp;
    PickedOnce(answer, i, stamp);
    ValuesMember(answer[i].points, p);
    assert Picked(answer, Is(labels), stamp) == Listed(cells(labels, stamp));
  }

  /** The name in a label set is the output's. */
  lemma CellNamed(q: Range, rows: seq<Row>, labels: Labels, stamp: int)
    requires Ready(q) && NodeCells(q, rows)(labels, stamp).Some?
    ensures OpOf(OpsOf(Last(q.query).aggs), labels) == Some(OpIn(q))
  {
    var stage := Last(q.query);
    var k := IndexOf(Stamps(q.starts), stamp);
    EmittedExactly(OpIn(q), Fed(q, rows, k.value), GroupPart(stage, labels));
    var r :| r in Fed(q, rows, k.value) && InGroup(GroupPart(stage, labels), r);
    assert labels == LabelsOf(stage.fields, stage.aggs[0].alias, r);
    assert NameOf(labels) == stage.aggs[0].alias;
    OpsRight(stage.aggs, 0);
  }

  ghost predicate Filled(answer: seq<Series>) {
    forall i | 0 <= i < |answer| :: answer[i].points != []
  }

  lemma {:induction false} FlattenMember(answers: seq<seq<Series>>, i: nat)
    requires i < |Flatten(answers)|
    ensures exists s, j :: 0 <= s < |answers| && 0 <= j < |answers[s]| && answers[s][j] == Flatten(answers)[i]
  {
    var n := |answers| - 1;
    var before := Flatten(answers[..n]);
    if i < |before| {
      FlattenMember(answers[..n], i);
      var s, j :| 0 <= s < |answers[..n]| && 0 <= j < |answers[..n][s]| && answers[..n][s][j] == before[i];
      assert answers[s][j] == Flatten(answers)[i];
    } else {
      assert answers[n][i - |before|] == Flatten(answers)[i];
    }
  }

  /** Every series of a shard's answer is readable and of the query's operator. */
  lemma SeriesGood(q: Range, rows: seq<Row>, answer: seq<Series>, i: nat)
    requires Ready(q) && Answered(answer, NodeCells(q, rows)) && Filled(answer) && i < |answer|
    ensures OpOf(OpsOf(Last(q.query).aggs), answer[i].labels) == Some(OpIn(q)) && !Unreadable(answer[i].points)
  {
    forall p: nat | p < |answer[i].points| ensures answer[i].points[p].value.Some? {
      ListedIsCell(answer, NodeCells(q, rows), i, p);
    }
    ListedIsCell(answer, NodeCells(q, rows), i, 0);
    CellNamed(q, rows, answer[i].labels, answer[i].points[0].stamp);
  }

  /** The shards' answers to a range query over their own rows, label sets free of NUL. */
  ghost predicate Asked(q: Range, rows: seq<Row>, home: Row -> nat, answers: seq<seq<Series>>) {
    && Ready(q) && NoDup(Stamps(q.starts)) && (forall r :: home(r) < |answers|)
    && (forall s | 0 <= s < |answers| :: Answered(answers[s], NodeCells(q, Part(rows, home, s))) && Filled(answers[s]))
    && AllNulFree(Flatten(answers))
  }

  lemma AllGood(q: Range, rows: seq<Row>, home: Row -> nat, answers: seq<seq<Series>>, i: nat)
    requires Asked(q, rows, home, answers) && i < |Flatten(answers)|
    ensures OpOf(OpsOf(Last(q.query).aggs), Flatten(answers)[i].labels) == Some(OpIn(q))
    ensures !Unreadable(Flatten(answers)[i].points)
  {
    FlattenMember(answers, i);
    var s, j :| 0 <= s < |answers| && 0 <= j < |answers[s]| && answers[s][j] == Flatten(answers)[i];
    SeriesGood(q, Part(rows, home, s), answers[s], j);
  }

  /** A stats range the router merges is never refused, and what it emits lists under every label set
      and stamp exactly the cell of one node holding all the rows, and nothing else, exactly when no
      shard's printed zero passes a true extreme. */
  lemma MatrixIsNodeExactly(q: Range, rows: seq<Row>, home: Row -> nat, answers: seq<seq<Series>>,
                            table: Table, out: seq<Series>, keys: seq<string>)
    requires Asked(q, rows, home, answers)
    requires Builds(OpsOf(Last(q.query).aggs), table, Flatten(answers)) && Emitted(out, keys, table)
    ensures Answered(out, NodeCells(q, rows)) <==>
            forall labels: Labels, k: nat | k < |q.starts| :: Kept(q, rows, home, |answers|, labels, k)
  {
    RouterLists(q, rows, home, answers, table, out, keys);
    AnsweredExactly(out, Combined(OpIn(q), Parts(q, rows, home, |answers|)), NodeCells(q, rows));
    CellsAreNode(q, rows, home, |answers|);
  }

  /** What the router emits are the combinations of the shards' cells. */
  lemma RouterLists(q: Range, rows: seq<Row>, home: Row -> nat, answers: seq<seq<Series>>,
                    table: Table, out: seq<Series>, keys: seq<string>)
    requires Asked(q, rows, home, answers)
    requires Builds(OpsOf(Last(q.query).aggs), table, Flatten(answers)) && Emitted(out, keys, table)
    ensures Answered(out, Combined(OpIn(q), Parts(q, rows, home, |answers|)))
  {
    var ops, op, all := OpsOf(Last(q.query).aggs), OpIn(q), Flatten(answers);
    forall i | 0 <= i < |all| ensures OpOf(ops, all[i].labels) == Some(op) { AllGood(q, rows, home, answers, i); }
    NulFreeApart(all);
    RouterAnswers(ops, op, answers, Parts(q, rows, home, |answers|), table, out, keys);
  }

  lemma CellsAreNode(q: Range, rows: seq<Row>, home: Row -> nat, shards: nat)
    requires Ready(q) && NoDup(Stamps(q.starts)) && forall r :: home(r) < shards
    ensures (forall labels, stamp :: Combined(OpIn(q), Parts(q, rows, home, shards))(labels, stamp) == NodeCells(q, rows)(labels, stamp))
       <==> forall labels: Labels, k: nat | k < |q.starts| :: Kept(q, rows, home, shards, labels, k)
  {
    var a, b := Combined(OpIn(q), Parts(q, rows, home, shards)), NodeCells(q, rows);
    if forall labels, stamp :: a(labels, stamp) == b(labels, stamp) {
      forall labels: Labels, k: nat | k < |q.starts| ensures Kept(q, rows, home, shards, labels, k) {
        var stamp := Stamps(q.starts)[k];
        CellIsNodeExactly(q, rows, home, shards, labels, stamp);
        assert a(labels, stamp) == b(labels, stamp);
        assert IndexOf(Stamps(q.starts), stamp) == Some(k);
      }
    }
    if forall labels: Labels, k: nat | k < |q.starts| :: Kept(q, rows, home, shards, labels, k) {
      forall labels, stamp ensures a(labels, stamp) == b(labels, stamp) {
        CellIsNodeExactly(q, rows, home, shards, labels, stamp);
      }
    }
  }

  lemma MatrixNotRefused(q: Range, rows: seq<Row>, home: Row -> nat, answers: seq<seq<Series>>)
    requires Asked(q, rows, home, answers)
    ensures !Refused(OpsOf(Last(q.query).aggs), Flatten(answers))
  {
    forall i | 0 <= i < |Flatten(answers)|
      ensures !RefusedAfter(OpsOf(Last(q.query).aggs), Flatten(answers)[..i], Flatten(answers)[i])
    {
      AllGood(q, rows, home, answers, i);
    }
  }

  /** Sums have nothing to lose: counts, sums, lengths and empties are always the node's. */
  lemma SumsAreNode(q: Range, rows: seq<Row>, home: Row -> nat, answers: seq<seq<Series>>,
                    table: Table, out: seq<Series>, keys: seq<string>)
    requires Asked(q, rows, home, answers) && Last(q.query).aggs[0].kind !in {Minimum, Maximum}
    requires Builds(OpsOf(Last(q.query).aggs), table, Flatten(answers)) && Emitted(out, keys, table)
    ensures Answered(out, NodeCells(q, rows))
  {
    MatrixIsNodeExactly(q, rows, home, answers, table, out, keys);
    assert OpIn(q) == Sum;
  }

  // ------------------------------------------------------------------ stamps in whole seconds

  lemma StampGap(x: int, y: int)
    requires x + SECOND <= y && (x >= 0 || y <= 0)
    ensures Stamp(x) < Stamp(y)
  {
    if x >= 0 {
      assert Stamp(y) >= (x + SECOND) / SECOND == x / SECOND + 1;
    } else {
      assert Stamp(-y) == -Stamp(y) && Stamp(-x) == -Stamp(x);
      assert Stamp(-x) >= (-y + SECOND) / SECOND == (-y) / SECOND + 1;
    }
  }

  lemma Scaled(a: int, b: int, step: int)
    requires a < b && step > 0
    ensures a * step + step <= b * step
  {
    assert (b - a - 1) * step >= 0;
    assert (b - a - 1) * step == b * step - a * step - step;
  }

  lemma MultiplesApart(step: int, j: int, k: int)
    requires step >= SECOND && j < k
    ensures Stamp(j * step) < Stamp(k * step)
  {
    Scaled(j, k, step);
    if j >= 0 {
      if j > 0 { Scaled(0, j, step); }
      StampGap(j * step, k * step);
    } else {
      Scaled(j, 0, step);
      if k > 0 {
        Scaled(0, k, step);
        StampGap(j * step, 0);
        StampGap(0, k * step);
      } else {
        if k < 0 { Scaled(k, 0, step); }
        StampGap(j * step, k * step);
      }
    }
  }

  /** Bucket starts are multiples of the step. Their stamps tell them apart exactly when the step is a
      second or more; below that the router adds up the buckets of a second. */
  lemma StampsApartExactly(step: int)
    requires step > 0
    ensures (forall x, y | x < y && x % step == 0 && y % step == 0 :: Stamp(x) != Stamp(y)) <==> step >= SECOND
  {
    if step >= SECOND {
      forall x, y | x < y && x % step == 0 && y % step == 0 ensures Stamp(x) != Stamp(y) {
        var j, k := x / step, y / step;
        assert x == j * step && y == k * step;
        if k < j { Scaled(k, j, step); }
        MultiplesApart(step, j, k);
      }
    } else {
      assert Stamp(0) == 0 && Stamp(step) == 0 && 0 % step == 0 && step % step == 0;
    }
  }

  /** So a walk at such a step satisfies what the merge needs of its stamps. */
  lemma WalkStampsApart(starts: seq<int>, step: int)
    requires step >= SECOND && NoDup(starts) && forall k | 0 <= k < |starts| :: starts[k] % step == 0
    ensures NoDup(Stamps(starts))
  {
    StampsApartExactly(step);
    forall j, k | 0 <= j < k < |starts| ensures Stamp(starts[j]) != Stamp(starts[k]) {
      if starts[j] > starts[k] { assert Stamp(starts[k]) != Stamp(starts[j]); }
    }
  }

  /** Two buckets of one second, counting a and b, come out of the router as one point of a + b. */
  lemma SecondsAreAddedUp(ops: Option<map<string, Op>>, labels: Labels, sec: int, a: int, b: int, table: Table)
    requires OpOf(ops, labels) == Some(Sum)
    requires Builds(ops, table, [Series(labels, [Point(sec, Some(a)), Point(sec, Some(b))])])
    ensures Key(labels) in table && PointAt(table[Key(labels)].points, sec) == Some(a + b)
  {
    var points := [Point(sec, Some(a)), Point(sec, Some(b))];
    var all := [Series(labels, points)];
    var key := Key(labels);
    assert Key(all[0].labels) in table;
    assert Filed(ops, table[key], key, all);
    var i :| First(all, i, key) && table[key].labels == all[i].labels;
    assert i == 0;
    assert all[..0] == [] && points[..1] == [Point(sec, Some(a))] && points[..1][..0] == [];
    assert Values(points[..1], sec) == [Some(a)];
    assert Values(points, sec) == [Some(a), Some(b)];
    assert Keyed(key)(labels);
    assert Picked(all, Keyed(key), sec) == [Some(a), Some(b)];
    assert [Some(a), Some(b)][..1] == [Some(a)];
    OverOne(Sum, Some(a));
  }
}
