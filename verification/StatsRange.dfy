/** A cluster's series are one node's.

The node's cells of a range of stats, what a shard's answer has to list for it, and when what the
router emits lists exactly the cells of one node holding all the rows. */
module StatsRange {
  import opened Basics
  import opened Sorting
  import opened Labels
  import opened StatsMerge
  import opened StatsSeries

  type Cells = (Labels, int) -> Option<int>

  /** A series for a label set at most once, and under every label set and stamp the one value of its
      cell, or nothing where there is no cell. */
  ghost predicate Answered(answer: seq<Series>, cells: Cells) {
    && (forall i, j | 0 <= i < j < |answer| :: answer[i].labels != answer[j].labels)
    && forall labels, stamp :: Picked(answer, Is(labels), stamp) == Listed(cells(labels, stamp))
  }

  /** No two different label sets of the answers share a key. */
  ghost predicate KeysApart(all: seq<Series>) {
    forall i, j | 0 <= i < |all| && 0 <= j < |all| && Key(all[i].labels) == Key(all[j].labels) :: all[i].labels == all[j].labels
  }

  ghost predicate AllNulFree(all: seq<Series>) {
    forall i | 0 <= i < |all| :: NulFree(all[i].labels)
  }

  lemma NulFreeApart(all: seq<Series>)
    requires AllNulFree(all)
    ensures KeysApart(all)
  {
    forall i, j | 0 <= i < |all| && 0 <= j < |all| && Key(all[i].labels) == Key(all[j].labels)
      ensures all[i].labels == all[j].labels
    {
      LabelKeyInjective(all[i].labels, all[j].labels);
    }
  }

  // ------------------------------------------------------------------ what the router emits

  lemma {:induction false} SameTests(all: seq<Series>, a: Labels -> bool, b: Labels -> bool, stamp: int)
    requires forall i | 0 <= i < |all| :: a(all[i].labels) == b(all[i].labels)
    ensures Picked(all, a, stamp) == Picked(all, b, stamp)
  {
    if all != [] {
      var n := |all| - 1;
      forall i | 0 <= i < n ensures a(all[..n][i].labels) == b(all[..n][i].labels) { assert all[..n][i] == all[i]; }
      SameTests(all[..n], a, b, stamp);
    }
  }

  lemma {:induction false} PickedNone(all: seq<Series>, labels: Labels, stamp: int)
    requires forall i | 0 <= i < |all| :: all[i].labels != labels
    ensures Picked(all, Is(labels), stamp) == []
  {
    if all != [] { PickedNone(all[..|all| - 1], labels, stamp); }
  }

  lemma {:induction false} PickedOnce(all: seq<Series>, i: nat, stamp: int)
    requires i < |all| && forall j | 0 <= j < |all| && j != i :: all[j].labels != all[i].labels
    ensures Picked(all, Is(all[i].labels), stamp) == Values(all[i].points, stamp)
  {
    var n := |all| - 1;
    if i == n {
      PickedNone(all[..n], all[i].labels, stamp);
    } else {
      PickedOnce(all[..n], i, stamp);
      assert all[n].labels != all[i].labels;
    }
  }

  /** The label set a key holds is one listed under it. */
  lemma HeldLabels(ops: Option<map<string, Op>>, table: Table, all: seq<Series>, key: string)
    requires Builds(ops, table, all) && key in table
    ensures Key(table[key].labels) == key && exists i :: 0 <= i < |all| && all[i].labels == table[key].labels
  {
    assert Filed(ops, table[key], key, all);
    var i :| First(all, i, key) && table[key].labels == all[i].labels;
    assert 0 <= i < |all| && all[i].labels == table[key].labels;
  }

  lemma EmittedDistinct(ops: Option<map<string, Op>>, table: Table, all: seq<Series>, out: seq<Series>, keys: seq<string>)
    requires Builds(ops, table, all) && Emitted(out, keys, table)
    ensures forall i, j | 0 <= i < j < |out| :: out[i].labels != out[j].labels
  {
    forall i, j | 0 <= i < j < |out| ensures out[i].labels != out[j].labels {
      HeldLabels(ops, table, all, keys[i]);
      HeldLabels(ops, table, all, keys[j]);
      assert LEX(keys[i], keys[j]);
      LexTotal(keys[i], keys[j]);
    }
  }

  /** What is emitted under a label set at a stamp is the combination of everything listed there. */
  lemma EmittedValues(ops: Option<map<string, Op>>, op: Op, table: Table, all: seq<Series>, out: seq<Series>,
                      keys: seq<string>, labels: Labels, stamp: int)
    requires Builds(ops, table, all) && Emitted(out, keys, table) && KeysApart(all)
    requires forall i | 0 <= i < |all| :: OpOf(ops, all[i].labels) == Some(op)
    ensures Picked(out, Is(labels), stamp) == Listed(Over(op, Picked(all, Is(labels), stamp)))
  {
    if i :| 0 <= i < |all| && all[i].labels == labels {
      var key := Key(labels);
      assert key in table;
      HeldLabels(ops, table, all, key);
      var j :| 0 <= j < |all| && all[j].labels == table[key].labels;
      assert Key(all[j].labels) == Key(all[i].labels);
      assert table[key].labels == labels && table[key].op == op;
      SameTests(all, Keyed(key), Is(labels), stamp);
      assert key in Elems(keys);
      var k :| 0 <= k < |keys| && keys[k] == key;
      EmittedDistinct(ops, table, all, out, keys);
      assert Shows(out[k], table[keys[k]]);
      PickedOnce(out, k, stamp);
    } else {
      PickedNone(all, labels, stamp);
      forall k | 0 <= k < |out| ensures out[k].labels != labels {
        HeldLabels(ops, table, all, keys[k]);
        assert Shows(out[k], table[keys[k]]);
      }
      PickedNone(out, labels, stamp);
    }
  }

  /** The router's cells: the combination of the shards'. */
  function Combined(op: Op, parts: seq<Cells>): Cells {
    (labels: Labels, stamp: int) => Over(op, Across(parts, labels, stamp))
  }

  function Across(parts: seq<Cells>, labels: Labels, stamp: int): (r: seq<Option<int>>)
    ensures |r| == |parts|
  {
    seq(|parts|, s requires 0 <= s < |parts| => parts[s](labels, stamp))
  }

  lemma {:induction false} OverAnswers(op: Op, answers: seq<seq<Series>>, parts: seq<Cells>, labels: Labels, stamp: int)
    requires |answers| == |parts| && forall s | 0 <= s < |parts| :: Answered(answers[s], parts[s])
    ensures Over(op, Picked(Flatten(answers), Is(labels), stamp)) == Over(op, Across(parts, labels, stamp))
  {
    if answers != [] {
      var n := |answers| - 1;
      OverAnswers(op, answers[..n], parts[..n], labels, stamp);
      PickedConcat(Flatten(answers[..n]), answers[n], Is(labels), stamp);
      OverConcat(op, Picked(Flatten(answers[..n]), Is(labels), stamp), Picked(answers[n], Is(labels), stamp));
      assert Across(parts, labels, stamp)[..n] == Across(parts[..n], labels, stamp);
      OverOne(op, parts[n](labels, stamp));
      assert Answered(answers[n], parts[n]);
    }
  }

  /** From answers that list the shards' cells, the router emits exactly their combinations. */
  lemma RouterAnswers(ops: Option<map<string, Op>>, op: Op, answers: seq<seq<Series>>, parts: seq<Cells>,
                      table: Table, out: seq<Series>, keys: seq<string>)
    requires |answers| == |parts| && forall s | 0 <= s < |parts| :: Answered(answers[s], parts[s])
    requires Builds(ops, table, Flatten(answers)) && Emitted(out, keys, table) && KeysApart(Flatten(answers))
    requires forall i | 0 <= i < |Flatten(answers)| :: OpOf(ops, Flatten(answers)[i].labels) == Some(op)
    ensures Answered(out, Combined(op, parts))
  {
    var all := Flatten(answers);
    EmittedDistinct(ops, table, all, out, keys);
    forall labels, stamp ensures Picked(out, Is(labels), stamp) == Listed(Combined(op, parts)(labels, stamp)) {
      EmittedValues(ops, op, table, all, out, keys, labels, stamp);
      OverAnswers(op, answers, parts, labels, stamp);
    }
  }

  /** An answer lists one family of cells and no other. */
  lemma AnsweredExactly(answer: seq<Series>, a: Cells, b: Cells)
    requires Answered(answer, a)
    ensures Answered(answer, b) <==> forall labels, stamp :: a(labels, stamp) == b(labels, stamp)
  {
    if Answered(answer, b) {
      forall labels, stamp ensures a(labels, stamp) == b(labels, stamp) {
        assert Picked(answer, Is(labels), stamp) == Listed(a(labels, stamp)) == Listed(b(labels, stamp));
      }
    } else if forall labels, stamp :: a(labels, stamp) == b(labels, stamp) {
      forall labels, stamp ensures Picked(answer, Is(labels), stamp) == Listed(b(labels, stamp)) {
        assert a(labels, stamp) == b(labels, stamp);
      }
    }
  }
}
