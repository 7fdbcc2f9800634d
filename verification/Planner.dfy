/** Planning a query across shards.

A pipeline is split: its longest row-local prefix runs on the shards, the rest once over the merged
rows. Pipes are abstract: a row-local one maps each row to some rows, any other one maps the whole
row list. The flags on a pipe are what the planner reads off its kind. */
module Planner {
  import opened Merge

  /** strips: the planner will not push it, because it may drop the row's time. changes: it may
      answer other than one row for a row. ownScan: leading, it answers from a scan of its own and
      the endpoint's limit does not bound its input. */
  datatype Pipe = Local(each: Row -> seq<Row>, strips: bool, changes: bool)
                | Global(run: seq<Row> -> seq<Row>, ownScan: bool)

  /** A pushed pipe keeps every row's time, and one said to be one-to-one is. */
  ghost predicate Honest(p: Pipe) {
    p.Local? ==>
      && (!p.strips ==> forall r, x | x in p.each(r) :: x.time == r.time)
      && (!p.changes ==> forall r :: |p.each(r)| == 1)
  }

  ghost predicate AllHonest(pipes: seq<Pipe>) {
    forall i | 0 <= i < |pipes| :: Honest(pipes[i])
  }

  // ------------------------------------------------------------------ running pipes

  function FlatMap(rows: seq<Row>, each: Row -> seq<Row>): seq<Row> {
    if rows == [] then [] else each(rows[0]) + FlatMap(rows[1..], each)
  }

  function Apply(p: Pipe, rows: seq<Row>): seq<Row> {
    match p
    case Local(each, _, _) => FlatMap(rows, each)
    case Global(run, _) => run(rows)
  }

  function ApplyAll(pipes: seq<Pipe>, rows: seq<Row>): seq<Row> {
    if |pipes| == 0 then rows else ApplyAll(pipes[1..], Apply(pipes[0], rows))
  }

  function Reversed<T>(s: seq<T>): (r: seq<T>)
    ensures |r| == |s|
  {
    seq(|s|, i requires 0 <= i < |s| => s[|s| - 1 - i])
  }

  // ------------------------------------------------------------------ the plan

  predicate Pushable(p: Pipe) {
    p.Local? && !p.strips
  }

  predicate Changes(p: Pipe) {
    p.Local? && p.changes
  }

  /** How many leading pipes are row-local. */
  function Prefix(pipes: seq<Pipe>): (n: nat)
    ensures n <= |pipes|
    ensures forall i | 0 <= i < n :: Pushable(pipes[i])
    ensures n < |pipes| ==> !Pushable(pipes[n])
  {
    if |pipes| > 0 && Pushable(pipes[0]) then 1 + Prefix(pipes[1..]) else 0
  }

  predicate LimitBounds(pipes: seq<Pipe>) {
    |pipes| == 0 || !(pipes[0].Global? && pipes[0].ownScan)
  }

  /** What is pushed of the prefix: all of it, or up to the first pipe that may change the row count
      when the endpoint's limit bounds the scan. */
  function FirstChange(pipes: seq<Pipe>, n: nat): (k: nat)
    requires n <= |pipes| && forall i | 0 <= i < n :: Pushable(pipes[i])
    ensures k <= n && (forall i | 0 <= i < k :: !Changes(pipes[i])) && (k < n ==> Changes(pipes[k]))
  {
    if n == 0 || Changes(pipes[0]) then 0 else 1 + FirstChange(pipes[1..], n - 1)
  }

  function Push(pipes: seq<Pipe>, limit: nat): (k: nat)
    ensures k <= Prefix(pipes)
    ensures forall i | 0 <= i < k :: Pushable(pipes[i])
  {
    if limit > 0 && LimitBounds(pipes) then FirstChange(pipes, Prefix(pipes)) else Prefix(pipes)
  }

  predicate CutShort(pipes: seq<Pipe>, limit: nat) {
    Push(pipes, limit) < Prefix(pipes)
  }

  /** The coordinator's half. When the pushed prefix was cut short it is the whole pipeline. */
  function Coordinator(pipes: seq<Pipe>, limit: nat): seq<Pipe> {
    if CutShort(pipes, limit) then pipes else pipes[Prefix(pipes)..]
  }

  method PlanQuery(pipes: seq<Pipe>, limit: nat) returns (push: nat, coord: seq<Pipe>)
    ensures push == Push(pipes, limit)
    ensures coord == Coordinator(pipes, limit)
    ensures push <= |pipes| && forall i | 0 <= i < push :: Pushable(pipes[i])
    ensures limit == 0 || !LimitBounds(pipes) ==> push == |pipes| || !Pushable(pipes[push])
    ensures limit > 0 && LimitBounds(pipes) ==>
              && (forall i | 0 <= i < push :: !pipes[i].changes)
              && (push == |pipes| || !Pushable(pipes[push]) || pipes[push].changes)
    ensures coord == if push < |pipes| && Pushable(pipes[push]) then pipes else pipes[push..]
  {
    var kept := 0;
    while kept < |pipes| && Pushable(pipes[kept])
      invariant 0 <= kept <= |pipes|
      invariant forall i | 0 <= i < kept :: Pushable(pipes[i])
    {
      kept := kept + 1;
    }
    PrefixIs(pipes, kept);
    push := kept;
    if limit > 0 && LimitBounds(pipes) {
      var i := 0;
      while i < kept
        invariant 0 <= i <= kept && push == kept
        invariant forall j | 0 <= j < i :: !Changes(pipes[j])
      {
        if Changes(pipes[i]) {
          push := i;
          break;
        }
        i := i + 1;
      }
      FirstChangeIs(pipes, kept, push);
    }
    coord := if push < kept then pipes else pipes[kept..];
  }

  lemma PrefixIs(pipes: seq<Pipe>, n: nat)
    requires n <= |pipes| && (forall i | 0 <= i < n :: Pushable(pipes[i])) && (n < |pipes| ==> !Pushable(pipes[n]))
    ensures Prefix(pipes) == n
  {
  }

  lemma FirstChangeIs(pipes: seq<Pipe>, n: nat, k: nat)
    requires n <= |pipes| && forall i | 0 <= i < n :: Pushable(pipes[i])
    requires k <= n && (forall i | 0 <= i < k :: !Changes(pipes[i])) && (k < n ==> Changes(pipes[k]))
    ensures FirstChange(pipes, n) == k
  {
  }

  // ------------------------------------------------------------------ one node, and a cluster

  /** A node scans oldest first; a limit that bounds the scan makes it the newest n, newest first. */
  function Scan(pipes: seq<Pipe>, rows: seq<Row>, limit: nat): seq<Row> {
    if limit > 0 && LimitBounds(pipes) then Take(Reversed(rows), limit) else rows
  }

  /** A leading pipe with a scan of its own is fed every row, oldest first; without one a limit leaves the
      newest rows, newest first. */
  lemma ScanRight(pipes: seq<Pipe>, rows: seq<Row>, limit: nat)
    ensures limit == 0 || (|pipes| > 0 && pipes[0].Global? && pipes[0].ownScan) ==> Scan(pipes, rows, limit) == rows
    ensures limit > 0 && (|pipes| == 0 || pipes[0].Local? || !pipes[0].ownScan) ==>
              && |Scan(pipes, rows, limit)| == (if limit <= |rows| then limit else |rows|)
              && forall i | 0 <= i < |Scan(pipes, rows, limit)| :: Scan(pipes, rows, limit)[i] == rows[|rows| - 1 - i]
  {
  }

  function Node(pipes: seq<Pipe>, rows: seq<Row>, limit: nat): seq<Row> {
    ApplyAll(pipes, Scan(pipes, rows, limit))
  }

  /** The rows a shard holds, in order. */
  function Part(rows: seq<Row>, home: Row -> nat, shard: nat): seq<Row> {
    if rows == [] then []
    else
      var last := rows[|rows| - 1];
      Part(rows[..|rows| - 1], home, shard) + if home(last) == shard then [last] else []
  }

  /** What each shard answers to the pushed part; it is told the limit only when nothing is left to
      the coordinator. */
  function Answers(pipes: seq<Pipe>, rows: seq<Row>, home: Row -> nat, shards: nat, limit: nat): (r: seq<seq<Row>>)
    ensures |r| == shards
  {
    var told := if |Coordinator(pipes, limit)| == 0 then limit else 0;
    seq(shards, s requires 0 <= s < shards => Node(pipes[..Push(pipes, limit)], Part(rows, home, s), told))
  }

  function Cluster(pipes: seq<Pipe>, rows: seq<Row>, home: Row -> nat, order: seq<nat>, limit: nat, shards: nat): seq<Row>
    requires Known(order, shards)
  {
    var coord := Coordinator(pipes, limit);
    var newest := limit > 0 && (|coord| == 0 || LimitBounds(pipes));
    var merged := Rows(Merged(newest, order, Answers(pipes, rows, home, shards, limit)));
    ApplyAll(coord, if newest then Take(merged, limit) else merged)
  }
}
