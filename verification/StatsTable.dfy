/** Value counts: the table the merge fills, and the top of its list. */
module StatsTable {
  import opened Basics
  import opened Sorting
  import opened Merge
  import opened Planner
  import opened StatsMerge

  // ------------------------------------------------------------------ filling a table

  function At(table: map<string, int>, key: string): Option<int> {
    if key in table then Some(table[key]) else None
  }

  /** The cells the shards' tables hold under a key. */
  function Column(tables: seq<map<string, int>>, key: string): (r: seq<Option<int>>)
    ensures |r| == |tables|
  {
    seq(|tables|, s requires 0 <= s < |tables| => At(tables[s], key))
  }

  /** Folds one shard's table into the merged one, its entries in any order. */
  method MergeTable(op: Op, acc: map<string, int>, table: map<string, int>) returns (r: map<string, int>)
    ensures forall key :: At(r, key) == Join(op, At(acc, key), At(table, key))
  {
    r := acc;
    var left := table.Keys;
    while left != {}
      invariant left <= table.Keys
      invariant forall key :: At(r, key) == Join(op, At(acc, key), if key in left then None else At(table, key))
    {
      var k :| k in left;
      left := left - {k};
      r := r[k := if k in r then Combine(op, r[k], table[k]) else table[k]];
    }
  }

  /** The merged table holds in every cell the combination of the shards' cells. */
  method MergeTables(op: Op, tables: seq<map<string, int>>) returns (r: map<string, int>)
    ensures forall key :: At(r, key) == Over(op, Column(tables, key))
  {
    r := map[];
    var i := 0;
    while i < |tables|
      invariant 0 <= i <= |tables|
      invariant forall key :: At(r, key) == Over(op, Column(tables[..i], key))
    {
      ghost var was := r;
      r := MergeTable(op, r, tables[i]);
      forall key ensures At(r, key) == Over(op, Column(tables[..i + 1], key)) {
        ColumnSnoc(op, tables, i, key);
      }
      i := i + 1;
    }
    assert tables[..i] == tables;
  }

  lemma ColumnSnoc(op: Op, tables: seq<map<string, int>>, i: nat, key: string)
    requires i < |tables|
    ensures Over(op, Column(tables[..i + 1], key)) == Join(op, Over(op, Column(tables[..i], key)), At(tables[i], key))
  {
    assert Column(tables[..i + 1], key)[..i] == Column(tables[..i], key);
  }

  /** Tables with the same cells are the same table. */
  lemma SameCells(a: map<string, int>, b: map<string, int>)
    requires forall key :: At(a, key) == At(b, key)
    ensures a == b
  {
    assert forall key :: key in a <==> At(a, key).Some?;
    assert forall key :: key in b <==> At(b, key).Some?;
    assert a.Keys == b.Keys;
    forall key | key in a ensures a[key] == b[key] { assert At(a, key) == At(b, key); }
  }

  // ------------------------------------------------------------------ a field's values

  predicate Carries(r: Row, tag: (string, string)) {
    tag in r.fields
  }

  /** The group of a value under a field, each row counting one. */
  function ValuePart(tag: (string, string)): Row -> Slot {
    (r: Row) => if Carries(r, tag) then Present(Some(1)) else Absent
  }

  /** The rows that carry a value under a field. */
  function Bearers(rows: seq<Row>, tag: (string, string)): set<nat> {
    set i: nat | i < |rows| && tag in rows[i].fields
  }

  lemma BearersSnoc(rows: seq<Row>, r: Row, tag: (string, string))
    ensures Bearers(rows + [r], tag) == Bearers(rows, tag) + if tag in r.fields then {|rows|} else {}
  {
    assert forall i: nat | i < |rows| :: (rows + [r])[i] == rows[i];
  }

  lemma {:induction false} BearersSlot(rows: seq<Row>, tag: (string, string))
    ensures SlotOf(Sum, rows, ValuePart(tag)) == if Bearers(rows, tag) == {} then Absent else Present(Some(|Bearers(rows, tag)|))
  {
    if |rows| > 0 {
      var n := |rows| - 1;
      var init, r := rows[..n], rows[n];
      BearersSlot(init, tag);
      BearersSnoc(init, r, tag);
      SlotSnoc(Sum, init, r, ValuePart(tag));
      assert rows == init + [r] && n !in Bearers(init, tag);
    } else {
      assert Bearers(rows, tag) == {};
    }
  }

  /** A value's count is the number of rows that carry it; a value no row carries has none. */
  lemma CountIsRows(rows: seq<Row>, tag: (string, string))
    ensures Cell(Sum, rows, ValuePart(tag)) == if Bearers(rows, tag) == {} then None else Some(|Bearers(rows, tag)|)
  {
    BearersSlot(rows, tag);
  }

  // ------------------------------------------------------------------ the top of the list

  datatype Entry = Entry(value: string, count: int)

  predicate Higher(a: Entry, b: Entry) {
    if a.count != b.count then a.count > b.count else LexLess(a.value, b.value)
  }

  const HIGHER := (a: Entry, b: Entry) => Higher(a, b)

  lemma HigherTotal(s: set<Entry>)
    ensures TotalOn(HIGHER, s)
  {
    forall a, b ensures !Higher(a, a) && (a != b ==> Higher(a, b) || Higher(b, a)) { LexTotal(a.value, b.value); }
    forall a, b, c | Higher(a, b) && Higher(b, c) ensures Higher(a, c) {
      if LexLess(a.value, b.value) && LexLess(b.value, c.value) { LexTransitive(a.value, b.value, c.value); }
    }
  }

  /** The entries of a table, in some order. */
  ghost predicate Lists(entries: seq<Entry>, table: map<string, int>) {
    NoDup(entries) && Elems(entries) == EntrySet(table)
  }

  ghost function EntrySet(table: map<string, int>): set<Entry> {
    set key | key in table :: Entry(key, table[key])
  }

  /** The table's entries, as iterating it happens to yield them. */
  method List(table: map<string, int>) returns (entries: seq<Entry>)
    ensures Lists(entries, table)
  {
    entries := [];
    var left := table.Keys;
    while left != {}
      invariant left <= table.Keys && NoDup(entries)
      invariant forall e :: e in entries <==> e.value in table && e.value !in left && e.count == table[e.value]
    {
      var k :| k in left;
      left := left - {k};
      entries := entries + [Entry(k, table[k])];
    }
    assert forall e :: e in Elems(entries) <==> e.value in table && e.count == table[e.value];
  }

  function Top(entries: seq<Entry>, n: nat): seq<Entry> {
    var sorted := Sort(HIGHER, entries);
    if n > 0 then Take(sorted, n) else sorted
  }

  /** The first n of a table's entries, all of them for n zero: larger counts first, equal ones by value,
      and nothing left out counts more than anything listed. */
  ghost predicate Highest(out: seq<Entry>, table: map<string, int>, n: nat) {
    && (n == 0 || |table| <= n ==> |out| == |table|) && (0 < n < |table| ==> |out| == n)
    && (forall i | 0 <= i < |out| :: out[i].value in table && out[i].count == table[out[i].value])
    && (forall i, j | 0 <= i < j < |out| ::
          out[i].count > out[j].count || (out[i].count == out[j].count && LexLess(out[i].value, out[j].value)))
    && (forall i, key | 0 <= i < |out| && key in table && (forall j | 0 <= j < |out| :: out[j].value != key) ::
          out[i].count > table[key] || (out[i].count == table[key] && LexLess(out[i].value, key)))
  }

  lemma {:induction false} EntriesCount(table: map<string, int>)
    ensures |EntrySet(table)| == |table|
    decreases |table|
  {
    if |table| > 0 {
      var k :| k in table;
      EntriesCount(table - {k});
      EntryLess(table, k);
    } else {
      assert EntrySet(table) == {};
    }
  }

  lemma EntryLess(table: map<string, int>, k: string)
    requires k in table
    ensures EntrySet(table) == EntrySet(table - {k}) + {Entry(k, table[k])} && Entry(k, table[k]) !in EntrySet(table - {k})
  {
    var less := table - {k};
    forall e ensures e in EntrySet(table) <==> e in EntrySet(less) + {Entry(k, table[k])} {
      assert e in EntrySet(table) <==> e.value in table && e.count == table[e.value];
      assert e in EntrySet(less) <==> e.value in less && e.count == less[e.value];
    }
  }

  lemma {:induction false} NoDupCard<T>(s: seq<T>)
    requires NoDup(s)
    ensures |Elems(s)| == |s|
  {
    if s == [] {
      assert Elems(s) == {};
    } else {
      var n := |s| - 1;
      NoDupCard(s[..n]);
      assert s == s[..n] + [s[n]] && s[n] !in s[..n];
      assert Elems(s) == Elems(s[..n]) + {s[n]};
    }
  }

  lemma SortedIsTable(entries: seq<Entry>, table: map<string, int>)
    requires Lists(entries, table)
    ensures var sorted := Sort(HIGHER, entries);
            && |sorted| == |table| && (forall i, j | 0 <= i < j < |sorted| :: Higher(sorted[i], sorted[j]))
            && forall e :: e in sorted <==> e.value in table && e.count == table[e.value]
  {
    HigherTotal(Elems(entries));
    SortOrders(HIGHER, entries);
    EntriesCount(table);
    NoDupCard(entries);
    forall e ensures e in Sort(HIGHER, entries) <==> e.value in table && e.count == table[e.value] {
      assert e in Sort(HIGHER, entries) <==> e in Elems(Sort(HIGHER, entries));
    }
  }

  /** However the table was walked, the top of the list is its highest entries. */
  lemma TopIsHighest(entries: seq<Entry>, table: map<string, int>, n: nat)
    requires Lists(entries, table)
    ensures Highest(Top(entries, n), table, n)
  {
    SortedIsTable(entries, table);
    TakeIsHighest(Sort(HIGHER, entries), Top(entries, n), table, n);
  }

  lemma TakeIsHighest(sorted: seq<Entry>, out: seq<Entry>, table: map<string, int>, n: nat)
    requires |sorted| == |table| && out == (if n > 0 then Take(sorted, n) else sorted)
    requires forall i, j | 0 <= i < j < |sorted| :: Higher(sorted[i], sorted[j])
    requires forall e :: e in sorted <==> e.value in table && e.count == table[e.value]
    ensures Highest(out, table, n)
  {
    assert |out| <= |sorted| && out == sorted[..|out|];
    assert forall i | 0 <= i < |out| :: out[i] in sorted;
    forall i, key | 0 <= i < |out| && key in table && (forall j | 0 <= j < |out| :: out[j].value != key)
      ensures Higher(out[i], Entry(key, table[key]))
    {
      assert Entry(key, table[key]) in sorted;
      var j :| 0 <= j < |sorted| && sorted[j] == Entry(key, table[key]);
      assert j >= |out|;
    }
  }

  /** The table one node answers for a field. */
  ghost predicate Counts(table: map<string, int>, rows: seq<Row>, field: string) {
    forall value :: At(table, value) == Cell(Sum, rows, ValuePart((field, value)))
  }

  /** The merged table is the one a node would hold. */
  lemma ValuesMerge(rows: seq<Row>, home: Row -> nat, field: string, tables: seq<map<string, int>>, value: string)
    requires forall r :: home(r) < |tables|
    requires forall s | 0 <= s < |tables| :: Counts(tables[s], Part(rows, home, s), field)
    ensures Over(Sum, Column(tables, value)) == Cell(Sum, rows, ValuePart((field, value)))
  {
    var part := ValuePart((field, value));
    assert Column(tables, value) == Print(Slots(Sum, rows, part, home, |tables|));
    MergeIsWholeExactly(Sum, rows, part, home, |tables|);
  }

  /** The shards are asked without a limit and their counts summed; the limit cuts the merged list. */
  method FederatedValueCounts(tables: seq<map<string, int>>, n: nat) returns (out: seq<Entry>, ghost merged: map<string, int>)
    ensures forall key :: At(merged, key) == Over(Sum, Column(tables, key))
    ensures Highest(out, merged, n)
    ensures forall entries | Lists(entries, merged) :: out == Top(entries, n)
  {
    var counts := MergeTables(Sum, tables);
    merged := counts;
    var listed := List(counts);
    out := Sort(HIGHER, listed);
    if n > 0 && |out| > n { out := out[..n]; }
    forall entries | Lists(entries, merged) ensures out == Top(entries, n) {
      HigherTotal(Elems(listed));
      SortCanonical(HIGHER, listed, entries);
    }
    TopIsHighest(listed, counts, n);
  }

  /** So the router answers, for every limit, exactly the top of the table one node would hold. */
  lemma TopIsWhole(rows: seq<Row>, home: Row -> nat, field: string, tables: seq<map<string, int>>,
                   merged: map<string, int>, whole: map<string, int>, a: seq<Entry>, b: seq<Entry>, n: nat)
    requires forall r :: home(r) < |tables|
    requires forall s | 0 <= s < |tables| :: Counts(tables[s], Part(rows, home, s), field)
    requires (forall key :: At(merged, key) == Over(Sum, Column(tables, key))) && Counts(whole, rows, field)
    requires Lists(a, merged) && Lists(b, whole)
    ensures merged == whole && Top(a, n) == Top(b, n)
  {
    forall value ensures At(merged, value) == At(whole, value) {
      ValuesMerge(rows, home, field, tables, value);
    }
    SameCells(merged, whole);
    HigherTotal(Elems(a));
    SortCanonical(HIGHER, a, b);
  }
}
