/** A cluster answers what one node holding all the rows would answer. */
module PlannerProof {
  import opened Sorting
  import opened Merge
  import opened Planner

  // ------------------------------------------------------------------ row-local pipelines

  ghost predicate Pushables(pipes: seq<Pipe>) {
    forall i | 0 <= i < |pipes| :: Pushable(pipes[i])
  }

  ghost predicate OneToOne(pipes: seq<Pipe>) {
    forall i | 0 <= i < |pipes| :: pipes[i].Local? && !Changes(pipes[i])
  }

  lemma {:induction false} FlatMapConcat(a: seq<Row>, b: seq<Row>, each: Row -> seq<Row>)
    ensures FlatMap(a + b, each) == FlatMap(a, each) + FlatMap(b, each)
  {
    if a == [] {
      assert a + b == b;
    } else {
      assert (a + b)[1..] == a[1..] + b;
      FlatMapConcat(a[1..], b, each);
      assert each(a[0]) + (FlatMap(a[1..], each) + FlatMap(b, each)) == FlatMap(a, each) + FlatMap(b, each);
    }
  }

  /** Row-local pipelines act on each row by itself. */
  lemma {:induction false} ApplyConcat(pipes: seq<Pipe>, a: seq<Row>, b: seq<Row>)
    requires Pushables(pipes)
    ensures ApplyAll(pipes, a + b) == ApplyAll(pipes, a) + ApplyAll(pipes, b)
    decreases |pipes|
  {
    if |pipes| > 0 {
      FlatMapConcat(a, b, pipes[0].each);
      ApplyConcat(pipes[1..], Apply(pipes[0], a), Apply(pipes[0], b));
    }
  }

  lemma {:induction false} ApplyNone(pipes: seq<Pipe>)
    requires Pushables(pipes)
    ensures ApplyAll(pipes, []) == []
    decreases |pipes|
  {
    if |pipes| > 0 { ApplyNone(pipes[1..]); }
  }

  lemma {:induction false} FlatMapTime(rows: seq<Row>, p: Pipe, t: int)
    requires Pushable(p) && Honest(p) && forall x | x in rows :: x.time == t
    ensures forall x | x in FlatMap(rows, p.each) :: x.time == t
  {
    if rows != [] {
      assert rows[0] in rows && forall x | x in rows[1..] :: x in rows;
      FlatMapTime(rows[1..], p, t);
    }
  }

  lemma {:induction false} ApplyTime(pipes: seq<Pipe>, rows: seq<Row>, t: int)
    requires Pushables(pipes) && AllHonest(pipes) && forall x | x in rows :: x.time == t
    ensures forall x | x in ApplyAll(pipes, rows) :: x.time == t
    decreases |pipes|
  {
    if |pipes| > 0 {
      FlatMapTime(rows, pipes[0], t);
      ApplyTime(pipes[1..], Apply(pipes[0], rows), t);
    }
  }

  lemma {:induction false} FlatMapLength(rows: seq<Row>, p: Pipe)
    requires p.Local? && !p.changes && Honest(p)
    ensures |FlatMap(rows, p.each)| == |rows|
  {
    if rows != [] { FlatMapLength(rows[1..], p); }
  }

  lemma {:induction false} ApplyLength(pipes: seq<Pipe>, rows: seq<Row>)
    requires OneToOne(pipes) && AllHonest(pipes)
    ensures |ApplyAll(pipes, rows)| == |rows|
    decreases |pipes|
  {
    if |pipes| > 0 {
      FlatMapLength(rows, pipes[0]);
      ApplyLength(pipes[1..], Apply(pipes[0], rows));
    }
  }

  lemma TakeConcat(a: seq<Row>, b: seq<Row>)
    ensures Take(a + b, |a|) == a
  {
  }

  /** A one-to-one pipeline and a bound commute. */
  lemma ApplyTake(pipes: seq<Pipe>, rows: seq<Row>, n: nat)
    requires Pushables(pipes) && OneToOne(pipes) && AllHonest(pipes)
    ensures ApplyAll(pipes, Take(rows, n)) == Take(ApplyAll(pipes, rows), n)
  {
    ApplyLength(pipes, rows);
    if n <= |rows| {
      var a, b := rows[..n], rows[n..];
      assert rows == a + b;
      ApplyConcat(pipes, a, b);
      ApplyLength(pipes, a);
      TakeConcat(ApplyAll(pipes, a), ApplyAll(pipes, b));
    }
  }

  lemma {:induction false} ApplySplit(pipes: seq<Pipe>, k: nat, rows: seq<Row>)
    requires k <= |pipes|
    ensures ApplyAll(pipes, rows) == ApplyAll(pipes[k..], ApplyAll(pipes[..k], rows))
    decreases k
  {
    if k > 0 {
      ApplySplit(pipes[1..], k - 1, Apply(pipes[0], rows));
      assert pipes[1..][k - 1..] == pipes[k..] && pipes[1..][..k - 1] == pipes[..k][1..];
    } else {
      assert pipes[k..] == pipes;
    }
  }

  // ------------------------------------------------------------------ the merged order

  predicate TimeBefore(newest: bool, a: Row, b: Row) {
    if newest then a.time > b.time else a.time < b.time
  }

  /** Each row stands after all earlier ones in the merge order, or (append false) before them. */
  predicate InLine(newest: bool, append: bool, rows: seq<Row>) {
    forall i, j | 0 <= i < j < |rows| ::
      if append then TimeBefore(newest, rows[i], rows[j]) else TimeBefore(newest, rows[j], rows[i])
  }

  function Each(pre: seq<Pipe>, r: Row): seq<Row> {
    ApplyAll(pre, [r])
  }

  /** A shard's answer to the pushed prefix. */
  function Body(pre: seq<Pipe>, rows: seq<Row>, home: Row -> nat, s: nat): seq<Row> {
    ApplyAll(pre, Part(rows, home, s))
  }

  function Bodies(pre: seq<Pipe>, rows: seq<Row>, home: Row -> nat, shards: nat): (r: seq<seq<Row>>)
    ensures |r| == shards
  {
    seq(shards, s requires 0 <= s < shards => Body(pre, rows, home, s))
  }

  /** Rows tagged from a position on. */
  function TagFrom(shard: nat, at: nat, rows: seq<Row>): (r: seq<Item>)
    ensures |r| == |rows|
  {
    seq(|rows|, i requires 0 <= i < |rows| => Item(rows[i].time, shard, at + i, rows[i]))
  }

  /** The tags of the rows a row becomes. */
  function Block(pre: seq<Pipe>, rows: seq<Row>, home: Row -> nat, r: Row): seq<Item> {
    TagFrom(home(r), |Body(pre, rows, home, home(r))|, Each(pre, r))
  }

  /** The order the merge must produce, built one original row at a time. */
  function Target(pre: seq<Pipe>, rows: seq<Row>, home: Row -> nat, append: bool): seq<Item> {
    if rows == [] then []
    else
      var n := |rows| - 1;
      var more := Target(pre, rows[..n], home, append);
      var block := Block(pre, rows[..n], home, rows[n]);
      if append then more + block else block + more
  }

  lemma BodyGrows(pre: seq<Pipe>, rows: seq<Row>, home: Row -> nat, r: Row, s: nat)
    requires Pushables(pre)
    ensures Body(pre, rows + [r], home, s) == Body(pre, rows, home, s) + if home(r) == s then Each(pre, r) else []
  {
    assert (rows + [r])[..|rows|] == rows;
    if home(r) == s {
      ApplyConcat(pre, Part(rows, home, s), [r]);
    } else {
      assert Part(rows + [r], home, s) == Part(rows, home, s);
    }
  }

  lemma BlockMembers(pre: seq<Pipe>, rows: seq<Row>, home: Row -> nat, r: Row, x: Item)
    ensures x in Block(pre, rows, home, r) <==>
            var at, out := |Body(pre, rows, home, home(r))|, Each(pre, r);
            && x.shard == home(r) && at <= x.pos < at + |out|
            && x.row == out[x.pos - at] && x.time == x.row.time
  {
    var at, block := |Body(pre, rows, home, home(r))|, Block(pre, rows, home, r);
    if at <= x.pos < at + |block| { assert block[x.pos - at] in block; }
  }

  /** One more row adds exactly its block to the tagged rows. */
  lemma TaggedGrows(pre: seq<Pipe>, rows: seq<Row>, home: Row -> nat, shards: nat, r: Row, x: Item)
    requires Pushables(pre) && home(r) < shards
    ensures Tagged(x, Bodies(pre, rows + [r], home, shards)) <==>
            (Tagged(x, Bodies(pre, rows, home, shards)) || x in Block(pre, rows, home, r))
  {
    BodyGrows(pre, rows, home, r, x.shard);
    BlockMembers(pre, rows, home, r, x);
  }

  lemma {:induction false} TargetMembers(pre: seq<Pipe>, rows: seq<Row>, home: Row -> nat, shards: nat, append: bool)
    requires Pushables(pre) && forall r :: home(r) < shards
    ensures forall x :: x in Target(pre, rows, home, append) <==> Tagged(x, Bodies(pre, rows, home, shards))
  {
    if rows == [] {
      ApplyNone(pre);
      assert forall s: nat | s < shards :: Bodies(pre, rows, home, shards)[s] == [];
    } else {
      var n := |rows| - 1;
      TargetMembers(pre, rows[..n], home, shards, append);
      assert rows == rows[..n] + [rows[n]];
      forall x ensures x in Target(pre, rows, home, append) <==> Tagged(x, Bodies(pre, rows, home, shards)) {
        TaggedGrows(pre, rows[..n], home, shards, rows[n], x);
      }
    }
  }

  /** Every tagged row carries the time of one of the original rows. */
  lemma {:induction false} TargetTimes(pre: seq<Pipe>, rows: seq<Row>, home: Row -> nat, append: bool, x: Item)
    requires Pushables(pre) && AllHonest(pre) && x in Target(pre, rows, home, append)
    ensures exists i :: 0 <= i < |rows| && rows[i].time == x.time
  {
    var n := |rows| - 1;
    if x in Target(pre, rows[..n], home, append) {
      TargetTimes(pre, rows[..n], home, append, x);
      var i :| 0 <= i < n && rows[..n][i].time == x.time;
      assert rows[i].time == x.time;
    } else {
      BlockTimes(pre, rows[..n], home, rows[n], x);
    }
  }

  lemma BlockTimes(pre: seq<Pipe>, rows: seq<Row>, home: Row -> nat, r: Row, x: Item)
    requires Pushables(pre) && AllHonest(pre) && x in Block(pre, rows, home, r)
    ensures x.time == r.time
  {
    ApplyTime(pre, [r], r.time);
    var block, out := Block(pre, rows, home, r), Each(pre, r);
    var i :| 0 <= i < |block| && block[i] == x;
    assert out[i] in out;
  }

  lemma BlockOrdered(pre: seq<Pipe>, rows: seq<Row>, home: Row -> nat, r: Row, newest: bool)
    requires Pushables(pre) && AllHonest(pre)
    ensures Ordered(Cmp(newest), Block(pre, rows, home, r))
  {
    var block := Block(pre, rows, home, r);
    forall i, j | 0 <= i < j < |block| ensures Cmp(newest)(block[i], block[j]) {
      BlockTimes(pre, rows, home, r, block[i]);
      BlockTimes(pre, rows, home, r, block[j]);
    }
  }

  lemma OrderedConcat(newest: bool, a: seq<Item>, b: seq<Item>)
    requires Ordered(Cmp(newest), a) && Ordered(Cmp(newest), b)
    requires forall x, y | x in a && y in b :: if newest then x.time > y.time else x.time < y.time
    ensures Ordered(Cmp(newest), a + b)
  {
    assert forall i | 0 <= i < |a| :: a[i] in a;
    assert forall i | 0 <= i < |b| :: b[i] in b;
  }

  lemma {:induction false} TargetOrdered(pre: seq<Pipe>, rows: seq<Row>, home: Row -> nat, newest: bool, append: bool)
    requires Pushables(pre) && AllHonest(pre) && InLine(newest, append, rows)
    ensures Ordered(Cmp(newest), Target(pre, rows, home, append))
  {
    if rows != [] {
      var n := |rows| - 1;
      TargetOrdered(pre, rows[..n], home, newest, append);
      var more, block := Target(pre, rows[..n], home, append), Block(pre, rows[..n], home, rows[n]);
      BlockOrdered(pre, rows[..n], home, rows[n], newest);
      forall x, y | x in more && y in block
        ensures if append == newest then x.time > y.time else x.time < y.time
      {
        TargetTimes(pre, rows[..n], home, append, x);
        var i :| 0 <= i < n && rows[..n][i].time == x.time;
        BlockTimes(pre, rows[..n], home, rows[n], y);
      }
      if append { OrderedConcat(newest, more, block); } else { OrderedConcat(newest, block, more); }
    }
  }

  lemma RowsConcat(a: seq<Item>, b: seq<Item>)
    ensures Rows(a + b) == Rows(a) + Rows(b)
  {
  }

  lemma BlockRows(pre: seq<Pipe>, rows: seq<Row>, home: Row -> nat, r: Row)
    ensures Rows(Block(pre, rows, home, r)) == Each(pre, r)
  {
  }

  lemma ReversedSnoc(rows: seq<Row>, r: Row)
    ensures Reversed(rows + [r]) == [r] + Reversed(rows)
  {
  }

  lemma ApplySnoc(pre: seq<Pipe>, rows: seq<Row>, r: Row, append: bool)
    requires Pushables(pre)
    ensures ApplyAll(pre, if append then rows + [r] else Reversed(rows + [r])) ==
            if append then ApplyAll(pre, rows) + Each(pre, r) else Each(pre, r) + ApplyAll(pre, Reversed(rows))
  {
    if append {
      ApplyConcat(pre, rows, [r]);
    } else {
      ReversedSnoc(rows, r);
      ApplyConcat(pre, [r], Reversed(rows));
    }
  }

  lemma TargetSnoc(pre: seq<Pipe>, rows: seq<Row>, r: Row, home: Row -> nat, append: bool)
    ensures var more := Rows(Target(pre, rows, home, append));
            Rows(Target(pre, rows + [r], home, append)) ==
            if append then more + Each(pre, r) else Each(pre, r) + more
  {
    assert (rows + [r])[..|rows|] == rows;
    var more, block := Target(pre, rows, home, append), Block(pre, rows, home, r);
    BlockRows(pre, rows, home, r);
    if append { RowsConcat(more, block); } else { RowsConcat(block, more); }
  }

  /** The target strips to what the prefix answers. */
  ghost predicate Strips(pre: seq<Pipe>, rows: seq<Row>, home: Row -> nat, append: bool) {
    Rows(Target(pre, rows, home, append)) == ApplyAll(pre, if append then rows else Reversed(rows))
  }

  lemma StripsSnoc(pre: seq<Pipe>, rows: seq<Row>, r: Row, home: Row -> nat, append: bool)
    requires Pushables(pre) && Strips(pre, rows, home, append)
    ensures Strips(pre, rows + [r], home, append)
  {
    TargetSnoc(pre, rows, r, home, append);
    ApplySnoc(pre, rows, r, append);
  }

  lemma {:induction false} TargetRows(pre: seq<Pipe>, rows: seq<Row>, home: Row -> nat, append: bool)
    requires Pushables(pre)
    ensures Strips(pre, rows, home, append)
  {
    if rows == [] {
      ApplyNone(pre);
      assert Reversed(rows) == rows;
    } else {
      var n := |rows| - 1;
      TargetRows(pre, rows[..n], home, append);
      StripsSnoc(pre, rows[..n], rows[n], home, append);
      assert rows == rows[..n] + [rows[n]];
    }
  }

  /** Merging the shards' answers to a row-local prefix gives what the prefix answers on all the rows
      together, in either direction, whatever order the shards finish in. */
  lemma MergeOfParts(pre: seq<Pipe>, rows: seq<Row>, home: Row -> nat, shards: nat, order: seq<nat>,
                     newest: bool, append: bool)
    requires Pushables(pre) && AllHonest(pre) && InLine(newest, append, rows)
    requires (forall r :: home(r) < shards) && Finishes(order, shards)
    ensures Rows(Merged(newest, order, Bodies(pre, rows, home, shards)))
         == ApplyAll(pre, if append then rows else Reversed(rows))
  {
    var target := Target(pre, rows, home, append);
    TargetMembers(pre, rows, home, shards, append);
    TargetOrdered(pre, rows, home, newest, append);
    MergedUnique(newest, order, Bodies(pre, rows, home, shards), target);
    TargetRows(pre, rows, home, append);
  }

  // ------------------------------------------------------------------ the theorem

  /** Distinctly timed rows in scan order. */
  predicate Ascending(rows: seq<Row>) {
    forall i, j | 0 <= i < j < |rows| :: rows[i].time < rows[j].time
  }

  /** The pushed prefix does nothing more when run again. */
  ghost predicate Idempotent(pre: seq<Pipe>) {
    forall r :: ApplyAll(pre, Each(pre, r)) == Each(pre, r)
  }

  lemma {:induction false} PartReversed(rows: seq<Row>, home: Row -> nat, s: nat)
    ensures Part(Reversed(rows), home, s) == Reversed(Part(rows, home, s))
  {
    if rows != [] {
      PartReversed(rows[1..], home, s);
      var n := |rows| - 1;
      assert Reversed(rows)[..n] == Reversed(rows[1..]);
      PartCons(rows, home, s);
    }
  }

  lemma {:induction false} PartCons(rows: seq<Row>, home: Row -> nat, s: nat)
    requires rows != []
    ensures Part(rows, home, s) == (if home(rows[0]) == s then [rows[0]] else []) + Part(rows[1..], home, s)
  {
    if |rows| > 1 {
      var n := |rows| - 1;
      PartCons(rows[..n], home, s);
      assert rows[..n][1..] == rows[1..][..n - 1];
    }
  }

  /** Nothing left for the coordinator, and a limit: every shard bounds its own scan. */
  lemma AllPushed(pipes: seq<Pipe>, rows: seq<Row>, home: Row -> nat, order: seq<nat>, limit: nat, shards: nat)
    requires AllHonest(pipes) && Ascending(rows) && (forall r :: home(r) < shards) && Finishes(order, shards)
    requires limit > 0 && |Coordinator(pipes, limit)| == 0
    ensures Cluster(pipes, rows, home, order, limit, shards) == Node(pipes, rows, limit)
  {
    assert Push(pipes, limit) == |pipes| && pipes[..|pipes|] == pipes;
    assert Pushables(pipes) && OneToOne(pipes);
    var back := Reversed(rows);
    var full := Bodies(pipes, back, home, shards);
    assert Answers(pipes, rows, home, shards, limit) == Cut(full, limit) by {
      forall s: nat | s < shards
        ensures Node(pipes, Part(rows, home, s), limit) == Take(full[s], limit)
      {
        PartReversed(rows, home, s);
        ApplyTake(pipes, Part(back, home, s), limit);
      }
    }
    BodiesNewestFirst(pipes, back, home, shards);
    NewestOfNewest(order, full, limit);
    MergeOfParts(pipes, back, home, shards, order, true, true);
    RowsTake(Merged(true, order, full), limit);
    RowsTake(Merged(true, order, Cut(full, limit)), limit);
    ApplyTake(pipes, back, limit);
  }

  lemma RowsTake(items: seq<Item>, n: nat)
    ensures Rows(Take(items, n)) == Take(Rows(items), n)
  {
  }

  lemma {:induction false} PartOrdered(rows: seq<Row>, home: Row -> nat, s: nat)
    requires InLine(true, true, rows)
    ensures InLine(true, true, Part(rows, home, s))
    ensures forall x | x in Part(rows, home, s) :: x in rows
  {
    if rows != [] {
      var n := |rows| - 1;
      PartOrdered(rows[..n], home, s);
      var part := Part(rows[..n], home, s);
      assert forall i | 0 <= i < |part| :: part[i] in rows[..n];
      assert forall x | x in rows[..n] :: x.time > rows[n].time && x in rows;
    }
  }

  lemma {:induction false} FlatMapNewest(rows: seq<Row>, p: Pipe)
    requires Pushable(p) && Honest(p) && !p.changes
    ensures |FlatMap(rows, p.each)| == |rows|
    ensures forall i | 0 <= i < |rows| :: FlatMap(rows, p.each)[i].time == rows[i].time
  {
    if rows != [] {
      FlatMapNewest(rows[1..], p);
      var out := p.each(rows[0]);
      assert out[0] in out;
      assert FlatMap(rows, p.each) == [out[0]] + FlatMap(rows[1..], p.each);
    }
  }

  /** One-to-one pipes keep the time at every position. */
  lemma {:induction false} ApplyTimes(pipes: seq<Pipe>, rows: seq<Row>)
    requires Pushables(pipes) && OneToOne(pipes) && AllHonest(pipes)
    ensures |ApplyAll(pipes, rows)| == |rows|
    ensures forall i | 0 <= i < |rows| :: ApplyAll(pipes, rows)[i].time == rows[i].time
    decreases |pipes|
  {
    if |pipes| > 0 {
      FlatMapNewest(rows, pipes[0]);
      ApplyTimes(pipes[1..], Apply(pipes[0], rows));
    }
  }

  lemma BodiesNewestFirst(pre: seq<Pipe>, rows: seq<Row>, home: Row -> nat, shards: nat)
    requires Pushables(pre) && OneToOne(pre) && AllHonest(pre) && InLine(true, true, rows)
    ensures NewestFirst(Bodies(pre, rows, home, shards))
  {
    forall s: nat | s < shards
      ensures forall i, j | 0 <= i < j < |Body(pre, rows, home, s)| ::
                Body(pre, rows, home, s)[i].time >= Body(pre, rows, home, s)[j].time
    {
      PartOrdered(rows, home, s);
      ApplyTimes(pre, Part(rows, home, s));
    }
  }

  /** What the coordinator's half receives when it has any work. */
  lemma CoordinatorInput(pipes: seq<Pipe>, rows: seq<Row>, home: Row -> nat, order: seq<nat>, limit: nat, shards: nat)
    requires AllHonest(pipes) && Ascending(rows) && (forall r :: home(r) < shards) && Finishes(order, shards)
    requires |Coordinator(pipes, limit)| > 0
    ensures Cluster(pipes, rows, home, order, limit, shards) ==
            ApplyAll(Coordinator(pipes, limit), ApplyAll(pipes[..Push(pipes, limit)], Scan(pipes, rows, limit)))
  {
    var pre := pipes[..Push(pipes, limit)];
    assert Pushables(pre) && AllHonest(pre);
    var bodies := Bodies(pre, rows, home, shards);
    assert Answers(pipes, rows, home, shards, limit) == bodies;
    var newest := limit > 0 && LimitBounds(pipes);
    MergeOfParts(pre, rows, home, shards, order, newest, !newest);
    if newest {
      assert OneToOne(pre);
      ApplyTake(pre, Reversed(rows), limit);
    }
  }

  /** Unless the pushed prefix was cut short, the cluster answers exactly what one node holding every
      row would: for any pipeline, any partition of distinctly timed rows over any number of shards,
      any limit, and any order in which the shards finish. */
  lemma ClusterIsNode(pipes: seq<Pipe>, rows: seq<Row>, home: Row -> nat, order: seq<nat>, limit: nat, shards: nat)
    requires AllHonest(pipes) && Ascending(rows) && (forall r :: home(r) < shards) && Finishes(order, shards)
    requires CutShort(pipes, limit) ==> Idempotent(pipes[..Push(pipes, limit)])
    ensures Cluster(pipes, rows, home, order, limit, shards) == Node(pipes, rows, limit)
  {
    var k := Push(pipes, limit);
    var pre := pipes[..k];
    if |Coordinator(pipes, limit)| > 0 {
      CoordinatorInput(pipes, rows, home, order, limit, shards);
      var scan := Scan(pipes, rows, limit);
      ApplySplit(pipes, k, scan);
      if CutShort(pipes, limit) {
        ApplySplit(pipes, k, ApplyAll(pre, scan));
        ApplyTwice(pre, scan);
      }
    } else if limit > 0 {
      AllPushed(pipes, rows, home, order, limit, shards);
    } else {
      assert pre == pipes;
      assert Answers(pipes, rows, home, shards, limit) == Bodies(pipes, rows, home, shards);
      MergeOfParts(pipes, rows, home, shards, order, false, true);
    }
  }

  lemma {:induction false} ApplyTwice(pre: seq<Pipe>, rows: seq<Row>)
    requires Pushables(pre) && Idempotent(pre)
    ensures ApplyAll(pre, ApplyAll(pre, rows)) == ApplyAll(pre, rows)
  {
    if rows == [] {
      ApplyNone(pre);
    } else {
      ApplyTwice(pre, rows[1..]);
      assert rows == [rows[0]] + rows[1..];
      ApplyConcat(pre, [rows[0]], rows[1..]);
      ApplyConcat(pre, Each(pre, rows[0]), ApplyAll(pre, rows[1..]));
    }
  }

  // ------------------------------------------------------------------ the cut-short prefix

  /** A row-local pipe that the planner takes for count-changing and that keeps every row. */
  const KEEP_ALL := Local(r => [r], false, true)

  lemma PlanOfCut(pre: seq<Pipe>)
    requires Pushables(pre) && OneToOne(pre)
    ensures var pipes := pre + [KEEP_ALL];
            CutShort(pipes, 1) && Push(pipes, 1) == |pre| && Coordinator(pipes, 1) == pipes && LimitBounds(pipes)
  {
    var pipes := pre + [KEEP_ALL];
    assert Pushable(pipes[|pre|]) && Changes(pipes[|pre|]);
    assert forall i | 0 <= i < |pre| :: pipes[i] == pre[i];
    PrefixIs(pipes, |pre| + 1);
    FirstChangeIs(pipes, |pre| + 1, |pre|);
  }

  /** On one row and one shard the coordinator runs the pushed prefix a second time. */
  lemma RunsTwice(pre: seq<Pipe>, r: Row)
    requires Pushables(pre) && OneToOne(pre) && AllHonest(pre)
    ensures Cluster(pre + [KEEP_ALL], [r], x => 0, [0], 1, 1) == ApplyAll(pre, Each(pre, r))
    ensures Node(pre + [KEEP_ALL], [r], 1) == Each(pre, r)
  {
    var pipes := pre + [KEEP_ALL];
    PlanOfCut(pre);
    assert pipes[..|pre|] == pre && pipes[|pre|..] == [KEEP_ALL];
    CoordinatorInput(pipes, [r], x => 0, [0], 1, 1);
    assert Scan(pipes, [r], 1) == [r];
    ApplySplit(pipes, |pre|, [r]);
    ApplySplit(pipes, |pre|, Each(pre, r));
    KeepsAll(Each(pre, r));
    KeepsAll(ApplyAll(pre, Each(pre, r)));
  }

  lemma {:induction false} KeepsAll(rows: seq<Row>)
    ensures ApplyAll([KEEP_ALL], rows) == rows
  {
    FlatMapKeeps(rows);
    assert [KEEP_ALL][1..] == [];
  }

  lemma {:induction false} FlatMapKeeps(rows: seq<Row>)
    ensures FlatMap(rows, KEEP_ALL.each) == rows
  {
    if rows != [] {
      FlatMapKeeps(rows[1..]);
      assert [rows[0]] + rows[1..] == rows;
    }
  }

  /** The cluster answers what a node does, where the inputs are such as the theorem is about. */
  ghost predicate RightOn(pipes: seq<Pipe>, rows: seq<Row>, home: Row -> nat, order: seq<nat>, limit: nat, shards: nat) {
    AllHonest(pipes) && Ascending(rows) && (forall r :: home(r) < shards) && Finishes(order, shards) ==>
      Cluster(pipes, rows, home, order, limit, shards) == Node(pipes, rows, limit)
  }

  /** What the planner stops pushing at when a limit bounds the scan. */
  predicate StopsAt(suffix: seq<Pipe>) {
    suffix != [] && Pushable(suffix[0]) && Changes(suffix[0])
  }

  lemma CutAt(pre: seq<Pipe>, suffix: seq<Pipe>, limit: nat)
    requires Pushables(pre) && OneToOne(pre) && StopsAt(suffix) && CutShort(pre + suffix, limit)
    ensures (pre + suffix)[..Push(pre + suffix, limit)] == pre
  {
    var pipes := pre + suffix;
    assert forall i | 0 <= i < |pre| :: pipes[i] == pre[i];
    assert pipes[|pre|] == suffix[0];
    var n := Prefix(pipes);
    assert forall i | 0 <= i <= |pre| :: Pushable(pipes[i]);
    FirstChangeIs(pipes, n, |pre|);
  }

  lemma EnoughOn(pre: seq<Pipe>, suffix: seq<Pipe>, rows: seq<Row>, home: Row -> nat, order: seq<nat>, limit: nat, shards: nat)
    requires Pushables(pre) && OneToOne(pre) && StopsAt(suffix) && Idempotent(pre)
    ensures RightOn(pre + suffix, rows, home, order, limit, shards)
  {
    if AllHonest(pre + suffix) && Ascending(rows) && (forall r :: home(r) < shards) && Finishes(order, shards) {
      if CutShort(pre + suffix, limit) { CutAt(pre, suffix, limit); }
      ClusterIsNode(pre + suffix, rows, home, order, limit, shards);
    }
  }

  lemma NeededOn(pre: seq<Pipe>, r: Row)
    requires Pushables(pre) && OneToOne(pre) && AllHonest(pre) && ApplyAll(pre, Each(pre, r)) != Each(pre, r)
    ensures !RightOn(pre + [KEEP_ALL], [r], x => 0, [0], 1, 1)
  {
    RunsTwice(pre, r);
    assert Honest(KEEP_ALL);
  }

  ghost predicate RightAlways(pre: seq<Pipe>) {
    forall suffix, rows, home, order, limit: nat, shards: nat | StopsAt(suffix) ::
      RightOn(pre + suffix, rows, home, order, limit, shards)
  }

  /** Idempotence is not only enough, it is needed: what follows a one-to-one prefix from a
      count-changing pipe on is answered right, whatever it is, on all rows, partitions, orders and
      limits, exactly when running the prefix again changes nothing. */
  lemma CutShortExactly(pre: seq<Pipe>)
    requires Pushables(pre) && OneToOne(pre) && AllHonest(pre)
    ensures Idempotent(pre) <==> RightAlways(pre)
  {
    if Idempotent(pre) {
      forall suffix, rows, home, order, limit: nat, shards: nat | StopsAt(suffix)
        ensures RightOn(pre + suffix, rows, home, order, limit, shards)
      {
        EnoughOn(pre, suffix, rows, home, order, limit, shards);
      }
    } else {
      var r :| ApplyAll(pre, Each(pre, r)) != Each(pre, r);
      NeededOn(pre, r);
      assert StopsAt([KEEP_ALL]);
    }
  }

  // ------------------------------------------------------------------ a prefix that is not idempotent

  /** Overwrites a field where the row has it, and appends it otherwise. */
  function SetField(fields: seq<(string, string)>, name: string, value: string): seq<(string, string)> {
    if fields == [] then [(name, value)]
    else if fields[0].0 == name then [(name, value)] + fields[1..]
    else [fields[0]] + SetField(fields[1..], name, value)
  }

  lemma {:induction false} FieldSet(fields: seq<(string, string)>, name: string, value: string)
    ensures Lookup(SetField(fields, name, value), name) == value
  {
    if fields != [] && fields[0].0 != name {
      FieldSet(fields[1..], name, value);
      assert SetField(fields, name, value)[1..] == SetField(fields[1..], name, value);
    }
  }

  /** What `format "<n>!" as n` makes of a row. */
  function Marked(r: Row): Row {
    Row(r.time, SetField(r.fields, "n", Lookup(r.fields, "n") + "!"))
  }

  const MARK := Local((r: Row) => [Marked(r)], false, false)

  lemma MarkIs(r: Row)
    ensures Each([MARK], r) == [Marked(r)]
  {
    assert [r][1..] == [] && [MARK][1..] == [];
    assert FlatMap([r], MARK.each) == [Marked(r)] + FlatMap([], MARK.each);
    assert [Marked(r)] + [] == [Marked(r)];
    assert ApplyAll([MARK], [r]) == ApplyAll([], [Marked(r)]);
  }

  /** A format that reads the field it writes, in front of a filter that keeps every row and with a
      limit: every row comes back marked twice from a cluster and once from a node. */
  lemma FormattedTwice(r: Row)
    ensures Cluster([MARK] + [KEEP_ALL], [r], x => 0, [0], 1, 1) == [Marked(Marked(r))]
    ensures Node([MARK] + [KEEP_ALL], [r], 1) == [Marked(r)]
    ensures Marked(Marked(r)) != Marked(r)
  {
    RunsTwice([MARK], r);
    MarkIs(r);
    MarkIs(Marked(r));
    var value := Lookup(r.fields, "n");
    FieldSet(r.fields, "n", value + "!");
    FieldSet(Marked(r).fields, "n", value + "!" + "!");
    assert |value + "!"| != |value + "!" + "!"|;
  }
}
