/** Combining the shards' aggregates.

A cell of an answer (a value of a value count, a label set at a bucket of a series) belongs to a group
of rows. A row is outside the group, or in it with or without a sample for the aggregate. A node emits
a cell exactly when its group has a row, and prints 0 for a group without a sample. The router sees
only the printed cells. Arithmetic is exact. */
module StatsMerge {
  import opened Basics
  import opened Sorting
  import opened Merge
  import opened Planner
  import opened PlannerProof

  datatype Op = Sum | Least | Greatest

  function Combine(op: Op, a: int, b: int): int {
    match op
    case Sum => a + b
    case Least => if b < a then b else a
    case Greatest => if b > a then b else a
  }

  /** The first number seen is taken as it is. */
  function Join(op: Op, a: Option<int>, b: Option<int>): Option<int> {
    if a.None? then b else if b.None? then a else Some(Combine(op, a.value, b.value))
  }

  // ------------------------------------------------------------------ a node's group

  /** What a node holds for a cell: no row of its group, or the combination of the samples seen. */
  datatype Slot = Absent | Present(best: Option<int>)

  function Fold(op: Op, a: Slot, b: Slot): Slot {
    if a.Absent? then b else if b.Absent? then a else Present(Join(op, a.best, b.best))
  }

  /** What the rows make of a cell, part telling what each does to it. */
  function SlotOf(op: Op, rows: seq<Row>, part: Row -> Slot): Slot {
    if rows == [] then Absent else Fold(op, SlotOf(op, rows[..|rows| - 1], part), part(rows[|rows| - 1]))
  }

  /** A group without a sample is printed as zero. */
  function Printed(slot: Slot): Option<int> {
    match slot
    case Absent => None
    case Present(best) => Some(if best.Some? then best.value else 0)
  }

  /** What a node answers in one cell. */
  function Cell(op: Op, rows: seq<Row>, part: Row -> Slot): Option<int> {
    Printed(SlotOf(op, rows, part))
  }

  predicate InGroup(part: Row -> Slot, r: Row) {
    part(r).Present?
  }

  /** Whether r is in the group with the sample v. */
  predicate Gives(part: Row -> Slot, r: Row, v: int) {
    part(r) == Present(Some(v))
  }

  lemma {:induction false} EmittedExactly(op: Op, rows: seq<Row>, part: Row -> Slot)
    ensures Cell(op, rows, part).Some? <==> exists r :: r in rows && InGroup(part, r)
  {
    if rows != [] {
      var n := |rows| - 1;
      EmittedExactly(op, rows[..n], part);
      assert rows == rows[..n] + [rows[n]];
      if exists r :: r in rows && InGroup(part, r) {
        var r :| r in rows && InGroup(part, r);
        assert r in rows[..n] || r == rows[n];
      }
      if part(rows[n]).Present? { assert rows[n] in rows && InGroup(part, rows[n]); }
    }
  }

  /** Whether a is at least as extreme as b. */
  predicate AsFar(op: Op, a: int, b: int) {
    if op == Least then a <= b else a >= b
  }

  /** The samples of a group: none, or with best as their extreme. */
  ghost predicate Extreme(op: Op, rows: seq<Row>, part: Row -> Slot, best: Option<int>) {
    if best.None? then forall r, v | r in rows :: !Gives(part, r, v)
    else (exists r :: r in rows && Gives(part, r, best.value)) && forall r, v | r in rows && Gives(part, r, v) :: AsFar(op, best.value, v)
  }

  function BestOf(slot: Slot): Option<int> {
    if slot.Absent? then None else slot.best
  }

  lemma ExtremeSnoc(op: Op, rows: seq<Row>, part: Row -> Slot, best: Option<int>, r: Row)
    requires op != Sum && Extreme(op, rows, part, best)
    ensures Extreme(op, rows + [r], part, Join(op, best, BestOf(part(r))))
  {
    var more := rows + [r];
    var next := Join(op, best, BestOf(part(r)));
    assert forall x :: x in more <==> x in rows || x == r;
    if next.Some? {
      if best.Some? && next == best {
        var x :| x in rows && Gives(part, x, best.value);
        assert x in more && Gives(part, x, next.value);
      } else {
        assert r in more && Gives(part, r, next.value);
      }
    }
  }

  lemma {:induction false} BestIsExtreme(op: Op, rows: seq<Row>, part: Row -> Slot)
    requires op != Sum
    ensures Extreme(op, rows, part, BestOf(SlotOf(op, rows, part)))
  {
    if rows != [] {
      var n := |rows| - 1;
      BestIsExtreme(op, rows[..n], part);
      assert rows == rows[..n] + [rows[n]];
      ExtremeSnoc(op, rows[..n], part, BestOf(SlotOf(op, rows[..n], part)), rows[n]);
    }
  }

  /** A cell is emitted exactly for a group with a row. An extremal cell is the extreme of its group's
      samples, attained by some row and passed by none, and zero for a group without a sample. */
  lemma ExtremesRight(op: Op, rows: seq<Row>, part: Row -> Slot)
    requires op != Sum
    ensures Cell(op, rows, part).Some? <==> exists r :: r in rows && InGroup(part, r)
    ensures var cell := Cell(op, rows, part);
            cell.Some? ==> Extreme(op, rows, part, cell) || (cell == Some(0) && Extreme(op, rows, part, None))
  {
    EmittedExactly(op, rows, part);
    BestIsExtreme(op, rows, part);
  }

  // ------------------------------------------------------------------ folding over shards

  /** What one node would hold, out of what the shards hold. */
  function Gather(op: Op, slots: seq<Slot>): Slot {
    if slots == [] then Absent else Fold(op, Gather(op, slots[..|slots| - 1]), slots[|slots| - 1])
  }

  /** What the router makes of the shards' answers in one cell. */
  function Over(op: Op, cells: seq<Option<int>>): Option<int> {
    if cells == [] then None else Join(op, Over(op, cells[..|cells| - 1]), cells[|cells| - 1])
  }

  function Print(slots: seq<Slot>): (r: seq<Option<int>>)
    ensures |r| == |slots|
  {
    seq(|slots|, s requires 0 <= s < |slots| => Printed(slots[s]))
  }

  lemma JoinLaws(op: Op, a: Option<int>, b: Option<int>, c: Option<int>)
    ensures Join(op, a, b) == Join(op, b, a)
    ensures Join(op, Join(op, a, b), c) == Join(op, a, Join(op, b, c))
  {
  }

  lemma FoldLaws(op: Op, a: Slot, b: Slot, c: Slot)
    ensures Fold(op, a, b) == Fold(op, b, a)
    ensures Fold(op, Fold(op, a, b), c) == Fold(op, a, Fold(op, b, c))
  {
    if a.Present? && b.Present? && c.Present? { JoinLaws(op, a.best, b.best, c.best); }
  }

  lemma {:induction false} GatherUpdate(op: Op, slots: seq<Slot>, s: nat, x: Slot)
    requires s < |slots|
    ensures Gather(op, slots[s := Fold(op, slots[s], x)]) == Fold(op, Gather(op, slots), x)
  {
    var n := |slots| - 1;
    var next := slots[s := Fold(op, slots[s], x)];
    FoldLaws(op, Gather(op, slots[..n]), slots[n], x);
    if s == n {
      assert next[..n] == slots[..n];
    } else {
      GatherUpdate(op, slots[..n], s, x);
      assert next[..n] == slots[..n][s := Fold(op, slots[s], x)];
      FoldLaws(op, Gather(op, slots[..n]), x, slots[n]);
      FoldLaws(op, x, slots[n], Absent);
    }
  }

  lemma {:induction false} GatherNothing(op: Op, slots: seq<Slot>)
    requires forall s | 0 <= s < |slots| :: slots[s] == Absent
    ensures Gather(op, slots) == Absent
  {
    if slots != [] { GatherNothing(op, slots[..|slots| - 1]); }
  }

  /** What the shards hold for one cell. */
  function Slots(op: Op, rows: seq<Row>, part: Row -> Slot, home: Row -> nat, shards: nat): (r: seq<Slot>)
    ensures |r| == shards
  {
    seq(shards, s requires 0 <= s < shards => SlotOf(op, Part(rows, home, s), part))
  }

  lemma SlotSnoc(op: Op, rows: seq<Row>, r: Row, part: Row -> Slot)
    ensures SlotOf(op, rows + [r], part) == Fold(op, SlotOf(op, rows, part), part(r))
  {
    assert (rows + [r])[..|rows|] == rows;
  }

  lemma SlotsSnoc(op: Op, rows: seq<Row>, r: Row, part: Row -> Slot, home: Row -> nat, shards: nat)
    requires home(r) < shards
    ensures var slots := Slots(op, rows, part, home, shards);
            Slots(op, rows + [r], part, home, shards) == slots[home(r) := Fold(op, slots[home(r)], part(r))]
  {
    assert (rows + [r])[..|rows|] == rows;
    forall s: nat | s < shards
      ensures SlotOf(op, Part(rows + [r], home, s), part) ==
              if s == home(r) then Fold(op, SlotOf(op, Part(rows, home, s), part), part(r))
              else SlotOf(op, Part(rows, home, s), part)
    {
      if s == home(r) {
        SlotSnoc(op, Part(rows, home, s), r, part);
      } else {
        assert Part(rows + [r], home, s) == Part(rows, home, s);
      }
    }
  }

  /** However the rows are spread over however many shards, what the shards hold folds to what one
      node holds. */
  lemma {:induction false} GatherIsWhole(op: Op, rows: seq<Row>, part: Row -> Slot, home: Row -> nat, shards: nat)
    requires forall r :: home(r) < shards
    ensures Gather(op, Slots(op, rows, part, home, shards)) == SlotOf(op, rows, part)
  {
    if rows == [] {
      GatherNothing(op, Slots(op, rows, part, home, shards));
    } else {
      var n := |rows| - 1;
      assert rows == rows[..n] + [rows[n]];
      GatherIsWhole(op, rows[..n], part, home, shards);
      SlotsSnoc(op, rows[..n], rows[n], part, home, shards);
      GatherUpdate(op, Slots(op, rows[..n], part, home, shards), home(rows[n]), part(rows[n]));
      SlotSnoc(op, rows[..n], rows[n], part);
    }
  }

  // ------------------------------------------------------------------ what printing loses

  /** Some shard holds the group and no sample of it, and prints the zero no row gave. */
  predicate Lacking(slots: seq<Slot>) {
    Present(None) in slots
  }

  /** Whether such a zero does no harm: it adds nothing to a sum, a group without a sample anywhere is
      zero, and otherwise it must not pass the true extreme. */
  predicate ZeroHarmless(op: Op, whole: Slot) {
    || op == Sum
    || whole.Absent? || whole.best.None?
    || (op == Least && whole.best.value <= 0)
    || (op == Greatest && whole.best.value >= 0)
  }

  /** The merge of the printed cells, out of what the shards hold. */
  function Reprinted(op: Op, whole: Slot, lacking: bool): Option<int> {
    if lacking && !ZeroHarmless(op, whole) then Some(0) else Printed(whole)
  }

  lemma {:induction false} OverPrinted(op: Op, slots: seq<Slot>)
    ensures Over(op, Print(slots)) == Reprinted(op, Gather(op, slots), Lacking(slots))
  {
    if slots != [] {
      var n := |slots| - 1;
      OverPrinted(op, slots[..n]);
      assert Print(slots)[..n] == Print(slots[..n]);
      assert slots == slots[..n] + [slots[n]];
      assert Lacking(slots) <==> Lacking(slots[..n]) || slots[n] == Present(None);
      LackingIsPresent(op, slots[..n]);
    }
  }

  lemma {:induction false} LackingIsPresent(op: Op, slots: seq<Slot>)
    ensures Lacking(slots) ==> Gather(op, slots).Present?
    ensures Gather(op, slots) == Present(None) ==> Lacking(slots)
  {
    if slots != [] {
      var n := |slots| - 1;
      LackingIsPresent(op, slots[..n]);
      assert slots == slots[..n] + [slots[n]];
      assert Lacking(slots) <==> Lacking(slots[..n]) || slots[n] == Present(None);
    }
  }

  /** The merged cell is the node's exactly when no shard holds the group without a sample, or no
      shard has a sample, or the node's minimum is not above zero (its maximum not below). */
  lemma MergeIsWholeExactly(op: Op, rows: seq<Row>, part: Row -> Slot, home: Row -> nat, shards: nat)
    requires forall r :: home(r) < shards
    ensures var slots := Slots(op, rows, part, home, shards);
            Over(op, Print(slots)) == Cell(op, rows, part) <==>
              !Lacking(slots) || ZeroHarmless(op, SlotOf(op, rows, part))
  {
    OverPrinted(op, Slots(op, rows, part, home, shards));
    GatherIsWhole(op, rows, part, home, shards);
  }

  /** The failing family is inhabited: a group one shard holds without a sample and another with
      the samples v > 0 has minimum v on one node and 0 on the cluster; dually for maxima below zero. */
  lemma SamplelessShardWins(v: int)
    requires v != 0
    ensures var op := if v > 0 then Least else Greatest;
            var slots := [Present(None), Present(Some(v))];
            Over(op, Print(slots)) == Some(0) && Printed(Gather(op, slots)) == Some(v)
  {
    var op := if v > 0 then Least else Greatest;
    var slots := [Present(None), Present(Some(v))];
    OverPrinted(op, slots);
    assert slots[..1] == [Present(None)] && [Present(None)][..0] == [];
    assert Gather(op, [Present(None)]) == Present(None);
    assert slots[0] == Present(None);
  }

  // ------------------------------------------------------------------ stats after a row-local prefix

  /** What the planner reads off each pipe of a stats query. */
  datatype Kind = RowLocal | Stats(mergeable: bool) | Other

  function LocalPrefix(kinds: seq<Kind>): (n: nat)
    ensures n <= |kinds|
    ensures forall i | 0 <= i < n :: kinds[i] == RowLocal
    ensures n < |kinds| ==> kinds[n] != RowLocal
  {
    if kinds != [] && kinds[0] == RowLocal then 1 + LocalPrefix(kinds[1..]) else 0
  }

  predicate IsStats(k: Kind) {
    k.Stats?
  }

  predicate HasStats(kinds: seq<Kind>) {
    exists i :: 0 <= i < |kinds| && IsStats(kinds[i])
  }

  method NeedsExactStats(kinds: seq<Kind>) returns (exact: bool)
    ensures exact == NeedsExact(kinds)
  {
    var hasStats := false;
    var i := 0;
    while i < |kinds|
      invariant 0 <= i <= |kinds|
      invariant hasStats <==> exists j :: 0 <= j < i && IsStats(kinds[j])
      invariant forall j | 0 <= j < i :: kinds[j] != Stats(false)
    {
      if IsStats(kinds[i]) {
        hasStats := true;
        if !kinds[i].mergeable { return true; }
      }
      i := i + 1;
    }
    if !hasStats { return false; }
    var coord := kinds[LocalPrefix(kinds)..];
    if |coord| == 0 { return false; }
    if !coord[0].Stats? { return true; }
    return |coord| > 1;
  }

  predicate NeedsExact(kinds: seq<Kind>) {
    || (exists i :: 0 <= i < |kinds| && kinds[i] == Stats(false))
    || (HasStats(kinds) && LocalPrefix(kinds) < |kinds|
        && (!kinds[LocalPrefix(kinds)].Stats? || LocalPrefix(kinds) + 1 < |kinds|))
  }

  /** A stats query is merged from the shards' answers exactly when it is row-local pipes and then one
      mergeable aggregate, with nothing after it. */
  lemma MergedExactly(kinds: seq<Kind>)
    requires HasStats(kinds)
    ensures !NeedsExact(kinds) <==>
            |kinds| > 0 && kinds[|kinds| - 1] == Stats(true) && forall i | 0 <= i < |kinds| - 1 :: kinds[i] == RowLocal
  {
    var n := LocalPrefix(kinds);
    var i :| 0 <= i < |kinds| && IsStats(kinds[i]);
    assert n <= i;
    if !NeedsExact(kinds) {
      assert kinds[n].Stats? && kinds[n] != Stats(false);
    } else {
      assert kinds[n] != RowLocal;
    }
  }

  lemma {:induction false} SlotConcat(op: Op, a: seq<Row>, b: seq<Row>, part: Row -> Slot)
    ensures SlotOf(op, a + b, part) == Fold(op, SlotOf(op, a, part), SlotOf(op, b, part))
  {
    if b == [] {
      assert a + b == a;
    } else {
      var n := |b| - 1;
      SlotConcat(op, a, b[..n], part);
      assert a + b == a + b[..n] + [b[n]];
      SlotSnoc(op, a + b[..n], b[n], part);
      FoldLaws(op, SlotOf(op, a, part), SlotOf(op, b[..n], part), part(b[n]));
    }
  }

  /** A row contributes what the prefix makes of it contributes. */
  function Through(op: Op, pre: seq<Pipe>, part: Row -> Slot): Row -> Slot {
    (r: Row) => SlotOf(op, Each(pre, r), part)
  }

  lemma {:induction false} SlotThrough(op: Op, pre: seq<Pipe>, rows: seq<Row>, part: Row -> Slot)
    requires Pushables(pre)
    ensures SlotOf(op, ApplyAll(pre, rows), part) == SlotOf(op, rows, Through(op, pre, part))
  {
    if rows == [] {
      ApplyNone(pre);
    } else {
      var n := |rows| - 1;
      assert rows == rows[..n] + [rows[n]];
      SlotThrough(op, pre, rows[..n], part);
      ApplyConcat(pre, rows[..n], [rows[n]]);
      SlotConcat(op, ApplyAll(pre, rows[..n]), Each(pre, rows[n]), part);
    }
  }

  /** What the shards hold for one cell after a prefix. */
  function SlotsThrough(op: Op, pre: seq<Pipe>, rows: seq<Row>, part: Row -> Slot, home: Row -> nat, shards: nat): (r: seq<Slot>)
    ensures |r| == shards
  {
    seq(shards, s requires 0 <= s < shards => SlotOf(op, ApplyAll(pre, Part(rows, home, s)), part))
  }

  /** After a row-local prefix too, the merged cell is what one node holding all the rows answers,
      under the same condition. */
  lemma StatsIsNodeExactly(op: Op, pre: seq<Pipe>, rows: seq<Row>, part: Row -> Slot, home: Row -> nat, shards: nat)
    requires Pushables(pre) && forall r :: home(r) < shards
    ensures var slots := SlotsThrough(op, pre, rows, part, home, shards);
            && (Over(op, Print(slots)) == Cell(op, ApplyAll(pre, rows), part) <==>
                 !Lacking(slots) || ZeroHarmless(op, SlotOf(op, ApplyAll(pre, rows), part)))
            && (Cell(op, ApplyAll(pre, rows), part).None? <==> Over(op, Print(slots)).None?)
  {
    var through := Through(op, pre, part);
    MergeIsWholeExactly(op, rows, through, home, shards);
    OverPrinted(op, Slots(op, rows, through, home, shards));
    LackingIsPresent(op, Slots(op, rows, through, home, shards));
    GatherIsWhole(op, rows, through, home, shards);
    SlotThrough(op, pre, rows, part);
    forall s: nat | s < shards
      ensures SlotOf(op, ApplyAll(pre, Part(rows, home, s)), part) == SlotOf(op, Part(rows, home, s), through)
    {
      SlotThrough(op, pre, Part(rows, home, s), part);
    }
    assert SlotsThrough(op, pre, rows, part, home, shards) == Slots(op, rows, through, home, shards);
  }
}
