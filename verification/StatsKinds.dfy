/** What a cell of a range of stats holds, by the kind of its aggregate: on one node, and as the router
emits it. */
module StatsKinds {
  import opened Basics
  import opened Sorting
  import opened Labels
  import opened Merge
  import opened Planner
  import opened PlannerProof
  import opened StatsMerge
  import opened StatsSeries
  import opened StatsRange
  import opened StatsNode

  // ------------------------------------------------------------------ what a cell holds

  /** The sum of a group's samples. */
  function Added(rows: seq<Row>, part: Row -> Slot): int {
    if rows == [] then 0
    else Added(rows[..|rows| - 1], part) + match part(rows[|rows| - 1]) case Present(Some(v)) => v case _ => 0
  }

  ghost predicate HasRow(rows: seq<Row>, part: Row -> Slot) {
    exists r :: r in rows && InGroup(part, r)
  }

  ghost predicate Sampled(rows: seq<Row>, part: Row -> Slot) {
    exists r, v :: r in rows && Gives(part, r, v)
  }

  /** v is a sample of the group, or the zero printed in place of one. */
  ghost predicate Among(rows: seq<Row>, part: Row -> Slot, zero: bool, v: int) {
    (exists r :: r in rows && Gives(part, r, v)) || (zero && v == 0)
  }

  /** A minimum is the least of the samples, a maximum the greatest, everything else their sum. */
  ghost predicate CellIs(kind: AggKind, rows: seq<Row>, part: Row -> Slot, zero: bool, v: int) {
    match kind
    case Minimum => Among(rows, part, zero, v) && forall w | Among(rows, part, zero, w) :: v <= w
    case Maximum => Among(rows, part, zero, v) && forall w | Among(rows, part, zero, w) :: v >= w
    case _ => v == Added(rows, part)
  }

  // ------------------------------------------------------------------ what a group folds to

  lemma {:induction false} SumIsAdded(rows: seq<Row>, part: Row -> Slot)
    ensures Added(rows, part) == match BestOf(SlotOf(Sum, rows, part)) case Some(v) => v case None => 0
  {
    if rows != [] { SumIsAdded(rows[..|rows| - 1], part); }
  }

  lemma SampledSnoc(rows: seq<Row>, r: Row, part: Row -> Slot)
    ensures Sampled(rows + [r], part) <==> Sampled(rows, part) || BestOf(part(r)).Some?
  {
    var more := rows + [r];
    assert forall x :: x in more <==> x in rows || x == r;
    if x, v :| x in rows && Gives(part, x, v) { assert x in more && Gives(part, x, v); }
    if BestOf(part(r)).Some? { assert r in more && Gives(part, r, BestOf(part(r)).value); }
  }

  lemma {:induction false} BestIsSampled(op: Op, rows: seq<Row>, part: Row -> Slot)
    ensures BestOf(SlotOf(op, rows, part)).Some? <==> Sampled(rows, part)
  {
    if rows != [] {
      var n := |rows| - 1;
      assert rows == rows[..n] + [rows[n]];
      BestIsSampled(op, rows[..n], part);
      SampledSnoc(rows[..n], rows[n], part);
    }
  }

  /** A group without a sample is one with a row and none that gives anything. */
  lemma LacksExactly(op: Op, rows: seq<Row>, part: Row -> Slot)
    ensures SlotOf(op, rows, part) == Present(None) <==> HasRow(rows, part) && !Sampled(rows, part)
    ensures SlotOf(op, rows, part).Present? <==> HasRow(rows, part)
  {
    EmittedExactly(op, rows, part);
    BestIsSampled(op, rows, part);
  }

  /** What is printed for a group, with a zero beside its samples or not. */
  lemma ReprintedIs(kind: AggKind, rows: seq<Row>, part: Row -> Slot, zero: bool)
    requires MergeOpFor(kind).Some?
    requires (zero ==> HasRow(rows, part)) && (HasRow(rows, part) && !Sampled(rows, part) ==> zero)
    ensures var op := MergeOpFor(kind).value;
            var cell := Reprinted(op, SlotOf(op, rows, part), zero);
            (cell.Some? <==> HasRow(rows, part)) && (cell.Some? ==> CellIs(kind, rows, part, zero, cell.value))
  {
    var op := MergeOpFor(kind).value;
    LacksExactly(op, rows, part);
    if op == Sum {
      SumIsAdded(rows, part);
    } else if HasRow(rows, part) {
      BestIsExtreme(op, rows, part);
      ExtremeIs(kind, rows, part, zero);
    }
  }

  lemma ExtremeIs(kind: AggKind, rows: seq<Row>, part: Row -> Slot, zero: bool)
    requires kind == Minimum || kind == Maximum
    requires var op := if kind == Minimum then Least else Greatest;
             && Extreme(op, rows, part, BestOf(SlotOf(op, rows, part))) && SlotOf(op, rows, part).Present?
             && (SlotOf(op, rows, part) == Present(None) ==> zero)
    ensures var op := if kind == Minimum then Least else Greatest;
            var cell := Reprinted(op, SlotOf(op, rows, part), zero);
            cell.Some? && CellIs(kind, rows, part, zero, cell.value)
  {
    var op := if kind == Minimum then Least else Greatest;
    var cell := Reprinted(op, SlotOf(op, rows, part), zero);
    var best := SlotOf(op, rows, part).best;
    forall w | Among(rows, part, zero, w) ensures AsFar(op, cell.value, w) {
      if r :| r in rows && Gives(part, r, w) { assert best.Some? && AsFar(op, best.value, w); }
    }
  }

  // ------------------------------------------------------------------ on a node

  /** A node's cell is there exactly for a group with a row in the bucket; it is the least, the greatest
      or the sum of the samples, and zero for an extreme of none. */
  lemma NodeCellByKind(q: Range, rows: seq<Row>, labels: Labels, k: nat)
    requires Ready(q) && NoDup(Stamps(q.starts)) && k < |q.starts|
    ensures var cell := NodeCell(q, rows, labels, Stamp(q.starts[k]));
            var fed, part := Fed(q, rows, k), GroupPart(Last(q.query), labels);
            && (cell.Some? <==> HasRow(fed, part))
            && (cell.Some? ==> CellIs(Last(q.query).aggs[0].kind, fed, part, !Sampled(fed, part), cell.value))
  {
    var op, fed, part := OpIn(q), Fed(q, rows, k), GroupPart(Last(q.query), labels);
    IndexAt(q, k);
    LacksExactly(op, fed, part);
    if HasRow(fed, part) {
      ReprintedIs(Last(q.query).aggs[0].kind, fed, part, !Sampled(fed, part));
    }
  }

  lemma IndexAt(q: Range, k: nat)
    requires NoDup(Stamps(q.starts)) && k < |q.starts|
    ensures Stamps(q.starts)[k] == Stamp(q.starts[k]) && IndexOf(Stamps(q.starts), Stamp(q.starts[k])) == Some(k)
  {
    assert Stamps(q.starts)[k] == Stamp(q.starts[k]);
    assert Stamps(q.starts)[k] in Stamps(q.starts);
  }

  // ------------------------------------------------------------------ on the router

  /** Some shard has rows of the group in bucket k and no sample among them. */
  ghost predicate SomeLacks(q: Range, rows: seq<Row>, home: Row -> nat, shards: nat, labels: Labels, k: nat)
    requires Ready(q)
  {
    exists s: nat :: s < shards && Lacks(q, Part(rows, home, s), labels, k)
  }

  ghost predicate Lacks(q: Range, rows: seq<Row>, labels: Labels, k: nat)
    requires Ready(q)
  {
    HasRow(Fed(q, rows, k), GroupPart(Last(q.query), labels)) && !Sampled(Fed(q, rows, k), GroupPart(Last(q.query), labels))
  }

  lemma LackingIs(q: Range, rows: seq<Row>, home: Row -> nat, shards: nat, labels: Labels, k: nat)
    requires Ready(q)
    ensures Lacking(Held(q, rows, home, shards, labels, k)) <==> SomeLacks(q, rows, home, shards, labels, k)
  {
    var op, part := OpIn(q), GroupPart(Last(q.query), labels);
    var held := Held(q, rows, home, shards, labels, k);
    forall s: nat | s < shards ensures held[s] == Present(None) <==> Lacks(q, Part(rows, home, s), labels, k) {
      PartsCommute(rows, home, s, q.bucketOf, k);
      LacksExactly(op, Fed(q, Part(rows, home, s), k), part);
    }
    if s: nat :| s < shards && Lacks(q, Part(rows, home, s), labels, k) { assert held[s] == Present(None); }
  }

  /** The router's cell out of what the shards hold. */
  lemma CombinedIs(q: Range, rows: seq<Row>, home: Row -> nat, shards: nat, labels: Labels, k: nat)
    requires Ready(q) && NoDup(Stamps(q.starts)) && k < |q.starts| && forall r :: home(r) < shards
    ensures Combined(OpIn(q), StatsNode.Parts(q, rows, home, shards))(labels, Stamp(q.starts[k]))
         == Reprinted(OpIn(q), SlotOf(OpIn(q), Fed(q, rows, k), GroupPart(Last(q.query), labels)), SomeLacks(q, rows, home, shards, labels, k))
  {
    var op, pre, part := OpIn(q), Pre(q.query), GroupPart(Last(q.query), labels);
    var parts, inside, stamp := StatsNode.Parts(q, rows, home, shards), Part(rows, q.bucketOf, k), Stamp(q.starts[k]);
    var held := Held(q, rows, home, shards, labels, k);
    IndexAt(q, k);
    forall s: nat | s < shards ensures parts[s](labels, stamp) == Printed(held[s]) {
      ShardCell(q, rows, home, s, labels, stamp, k);
    }
    assert Across(parts, labels, stamp) == Print(held);
    OverPrinted(op, held);
    LackingIs(q, rows, home, shards, labels, k);
    HeldGathers(op, pre, inside, part, home, shards);
  }

  lemma HeldGathers(op: Op, pre: seq<Pipe>, rows: seq<Row>, part: Row -> Slot, home: Row -> nat, shards: nat)
    requires Pushables(pre) && forall r :: home(r) < shards
    ensures Gather(op, SlotsThrough(op, pre, rows, part, home, shards)) == SlotOf(op, ApplyAll(pre, rows), part)
  {
    var through := Through(op, pre, part);
    GatherIsWhole(op, rows, through, home, shards);
    SlotThrough(op, pre, rows, part);
    forall s: nat | s < shards
      ensures SlotOf(op, ApplyAll(pre, Part(rows, home, s)), part) == SlotOf(op, Part(rows, home, s), through)
    {
      SlotThrough(op, pre, Part(rows, home, s), part);
    }
    assert SlotsThrough(op, pre, rows, part, home, shards) == Slots(op, rows, through, home, shards);
  }

  /** What the router emits under a label set at a bucket's stamp: one value exactly when some row of the
      group is in the bucket, the least, the greatest or the sum of the samples on all the shards; an
      extreme also ranges over the zero of any shard that has the group and no sample. */
  lemma RouterByKind(q: Range, rows: seq<Row>, home: Row -> nat, answers: seq<seq<Series>>,
                     table: Table, out: seq<Series>, keys: seq<string>, labels: Labels, k: nat) returns (cell: Option<int>)
    requires Asked(q, rows, home, answers) && k < |q.starts|
    requires Builds(OpsOf(Last(q.query).aggs), table, Flatten(answers)) && Emitted(out, keys, table)
    ensures Picked(out, Is(labels), Stamp(q.starts[k])) == Listed(cell)
    ensures var fed, part := Fed(q, rows, k), GroupPart(Last(q.query), labels);
            && (cell.Some? <==> HasRow(fed, part))
            && (cell.Some? ==> CellIs(Last(q.query).aggs[0].kind, fed, part, SomeLacks(q, rows, home, |answers|, labels, k), cell.value))
  {
    var op, fed, part := OpIn(q), Fed(q, rows, k), GroupPart(Last(q.query), labels);
    var parts := StatsNode.Parts(q, rows, home, |answers|);
    RouterLists(q, rows, home, answers, table, out, keys);
    cell := Combined(op, parts)(labels, Stamp(q.starts[k]));
    assert Picked(out, Is(labels), Stamp(q.starts[k])) == Listed(cell);
    CombinedIs(q, rows, home, |answers|, labels, k);
    LackingFed(q, rows, home, |answers|, labels, k);
    ReprintedIs(Last(q.query).aggs[0].kind, fed, part, SomeLacks(q, rows, home, |answers|, labels, k));
  }

  /** A shard that lacks samples has a row of the group, and a group without any sample has such a shard. */
  lemma LackingFed(q: Range, rows: seq<Row>, home: Row -> nat, shards: nat, labels: Labels, k: nat)
    requires Ready(q) && forall r :: home(r) < shards
    ensures var fed, part := Fed(q, rows, k), GroupPart(Last(q.query), labels);
            && (SomeLacks(q, rows, home, shards, labels, k) ==> HasRow(fed, part))
            && (HasRow(fed, part) && !Sampled(fed, part) ==> SomeLacks(q, rows, home, shards, labels, k))
  {
    var op, fed, part := OpIn(q), Fed(q, rows, k), GroupPart(Last(q.query), labels);
    LackingIs(q, rows, home, shards, labels, k);
    LackingIsPresent(op, Held(q, rows, home, shards, labels, k));
    HeldGathers(op, Pre(q.query), Part(rows, q.bucketOf, k), part, home, shards);
    LacksExactly(op, fed, part);
  }

  // ------------------------------------------------------------------ groups

  /** Two rows share a label set exactly when they agree in every grouping field, and the label set says
      in what, beside the output's name. */
  lemma SameGroupExactly(fields: seq<string>, alias: string, r: Row, s: Row)
    requires NAME !in fields
    ensures LabelsOf(fields, alias, r) == LabelsOf(fields, alias, s) <==>
            forall f | f in fields :: Lookup(r.fields, f) == Lookup(s.fields, f)
    ensures forall f | f in fields :: f in LabelsOf(fields, alias, r) && LabelsOf(fields, alias, r)[f] == Lookup(r.fields, f)
    ensures LabelsOf(fields, alias, r).Keys == (set f | f in fields) + if alias == "" then {} else {NAME}
    ensures alias != "" ==> LabelsOf(fields, alias, r)[NAME] == alias
  {
    var a, b := LabelsOf(fields, alias, r), LabelsOf(fields, alias, s);
    if a == b {
      forall f | f in fields ensures Lookup(r.fields, f) == Lookup(s.fields, f) { assert a[f] == b[f]; }
    } else if forall f | f in fields :: Lookup(r.fields, f) == Lookup(s.fields, f) {
      assert (map f | f in fields :: Lookup(r.fields, f)) == (map f | f in fields :: Lookup(s.fields, f));
    }
  }
}
