/** Merging the rows of several shards into one order.

Every row is tagged with its shard and its position in that shard's answer, so the order the merge
sorts by is total: newest or oldest first, then shard, then position. Rows carry their time. */
module Merge {
  import opened Sorting

  datatype Row = Row(time: int, fields: seq<(string, string)>)

  /** The first value under a name, or the empty one. */
  function Lookup(fields: seq<(string, string)>, name: string): string {
    if fields == [] then "" else if fields[0].0 == name then fields[0].1 else Lookup(fields[1..], name)
  }

  datatype Item = Item(time: int, shard: nat, pos: nat, row: Row)

  predicate Before(newest: bool, a: Item, b: Item) {
    if a.time != b.time then (if newest then a.time > b.time else a.time < b.time)
    else if a.shard != b.shard then a.shard < b.shard
    else a.pos < b.pos
  }

  function Cmp(newest: bool): (Item, Item) -> bool {
    (a, b) => Before(newest, a, b)
  }

  /** One shard's answer, tagged. */
  function Tag(shard: nat, body: seq<Row>): seq<Item> {
    seq(|body|, i requires 0 <= i < |body| => Item(body[i].time, shard, i, body[i]))
  }

  predicate Known(order: seq<nat>, shards: nat) {
    forall i | 0 <= i < |order| :: order[i] < shards
  }

  /** What the shard goroutines append, in the order they finish. */
  function Collected(order: seq<nat>, bodies: seq<seq<Row>>): seq<Item>
    requires Known(order, |bodies|)
  {
    if order == [] then []
    else Collected(order[..|order| - 1], bodies) + Tag(order[|order| - 1], bodies[order[|order| - 1]])
  }

  /** Every shard finishes once. */
  ghost predicate Finishes(order: seq<nat>, shards: nat) {
    NoDup(order) && Known(order, shards) && (forall s: nat | s < shards :: s in order)
  }

  predicate Tagged(x: Item, bodies: seq<seq<Row>>) {
    x.shard < |bodies| && x.pos < |bodies[x.shard]|
    && x.row == bodies[x.shard][x.pos] && x.time == x.row.time
  }

  function Rows(items: seq<Item>): seq<Row> {
    seq(|items|, i requires 0 <= i < |items| => items[i].row)
  }

  function Take<T>(s: seq<T>, n: nat): seq<T> {
    if n <= |s| then s[..n] else s
  }

  /** The merged rows in order. */
  function Merged(newest: bool, order: seq<nat>, bodies: seq<seq<Row>>): seq<Item>
    requires Known(order, |bodies|)
  {
    Sort(Cmp(newest), Collected(order, bodies))
  }

  // ------------------------------------------------------------------ what is collected

  lemma {:induction false} CollectedMembers(order: seq<nat>, bodies: seq<seq<Row>>)
    requires NoDup(order) && Known(order, |bodies|)
    ensures forall x :: x in Collected(order, bodies) <==> Tagged(x, bodies) && x.shard in order
    ensures NoDup(Collected(order, bodies))
  {
    if order != [] {
      var n := |order| - 1;
      var s, before := order[n], order[..n];
      assert order == before + [s];
      CollectedMembers(before, bodies);
      assert s !in before;
      TagMembers(s, bodies);
      NoDupConcat(Collected(before, bodies), Tag(s, bodies[s]));
    }
  }

  lemma TagMembers(s: nat, bodies: seq<seq<Row>>)
    requires s < |bodies|
    ensures forall x :: x in Tag(s, bodies[s]) <==> Tagged(x, bodies) && x.shard == s
    ensures NoDup(Tag(s, bodies[s]))
  {
    forall x | Tagged(x, bodies) && x.shard == s ensures x in Tag(s, bodies[s]) {
      assert Tag(s, bodies[s])[x.pos] == x;
    }
  }

  lemma NoDupConcat<T>(a: seq<T>, b: seq<T>)
    requires NoDup(a) && NoDup(b) && forall x | x in a :: x !in b
    ensures NoDup(a + b)
  {
    assert forall i | 0 <= i < |a| :: a[i] in a;
  }

  /** The comparator is a strict total order on tagged rows, whatever their times. */
  lemma OrderTotal(newest: bool, s: set<Item>, bodies: seq<seq<Row>>)
    requires forall x | x in s :: Tagged(x, bodies)
    ensures TotalOn(Cmp(newest), s)
  {
  }

  lemma MergedRight(newest: bool, order: seq<nat>, bodies: seq<seq<Row>>)
    requires Finishes(order, |bodies|)
    ensures Ordered(Cmp(newest), Merged(newest, order, bodies))
    ensures forall x :: x in Merged(newest, order, bodies) <==> Tagged(x, bodies)
    ensures TotalOn(Cmp(newest), Elems(Merged(newest, order, bodies)))
  {
    var all := Collected(order, bodies);
    CollectedMembers(order, bodies);
    OrderTotal(newest, Elems(all), bodies);
    SortOrders(Cmp(newest), all);
    assert forall x :: x in Merged(newest, order, bodies) <==> x in Elems(Merged(newest, order, bodies));
    assert forall x :: x in all <==> x in Elems(all);
  }

  /** Merged rows stand in the order of their times, newest or oldest first; rows of one time in the order
      of their shards, and those of one shard as it answered them. */
  lemma MergedInTimeOrder(newest: bool, order: seq<nat>, bodies: seq<seq<Row>>, i: nat, j: nat)
    requires Finishes(order, |bodies|) && i < j < |Merged(newest, order, bodies)|
    ensures var a, b := Merged(newest, order, bodies)[i], Merged(newest, order, bodies)[j];
            && a.row.time == a.time && b.row.time == b.time
            && (if newest then a.time >= b.time else a.time <= b.time)
            && (a.time == b.time ==> a.shard <= b.shard)
            && (a.time == b.time && a.shard == b.shard ==> a.pos < b.pos)
  {
    MergedRight(newest, order, bodies);
    var all := Merged(newest, order, bodies);
    assert all[i] in all && all[j] in all;
    assert Cmp(newest)(all[i], all[j]);
  }

  /** An ordered list of exactly the tagged rows is the merged order. */
  lemma MergedUnique(newest: bool, order: seq<nat>, bodies: seq<seq<Row>>, target: seq<Item>)
    requires Finishes(order, |bodies|)
    requires Ordered(Cmp(newest), target) && forall x :: x in target <==> Tagged(x, bodies)
    ensures Merged(newest, order, bodies) == target
  {
    MergedRight(newest, order, bodies);
    assert Elems(target) == Elems(Merged(newest, order, bodies));
    OrderedUnique(Cmp(newest), Merged(newest, order, bodies), target);
  }

  /** The answer is the same whatever order the shards' goroutines finish in. */
  lemma ArrivalOrderIrrelevant(newest: bool, a: seq<nat>, b: seq<nat>, bodies: seq<seq<Row>>)
    requires Finishes(a, |bodies|) && Finishes(b, |bodies|)
    ensures Merged(newest, a, bodies) == Merged(newest, b, bodies)
  {
    MergedRight(newest, b, bodies);
    MergedUnique(newest, a, bodies, Merged(newest, b, bodies));
  }

  // ------------------------------------------------------------------ the newest n

  /** Each shard's answer cut to its first n rows. */
  function Cut(bodies: seq<seq<Row>>, n: nat): (r: seq<seq<Row>>)
    ensures |r| == |bodies|
  {
    seq(|bodies|, s requires 0 <= s < |bodies| => Take(bodies[s], n))
  }

  /** Every shard answers newest first; rows may share a time. */
  predicate NewestFirst(bodies: seq<seq<Row>>) {
    forall s, i, j | 0 <= s < |bodies| && 0 <= i < j < |bodies[s]| :: bodies[s][i].time >= bodies[s][j].time
  }

  function WithinFirst(items: seq<Item>, n: nat): seq<Item> {
    if items == [] then []
    else (if items[0].pos < n then [items[0]] else []) + WithinFirst(items[1..], n)
  }

  lemma {:induction false} WithinFirstMembers(items: seq<Item>, n: nat)
    ensures forall x :: x in WithinFirst(items, n) <==> x in items && x.pos < n
  {
    if items != [] {
      WithinFirstMembers(items[1..], n);
      assert items == [items[0]] + items[1..];
    }
  }

  lemma {:induction false} WithinFirstOrdered(items: seq<Item>, n: nat)
    requires Ordered(Cmp(true), items)
    ensures Ordered(Cmp(true), WithinFirst(items, n))
  {
    if items != [] {
      assert forall i | 0 <= i < |items[1..]| :: items[1..][i] == items[i + 1];
      WithinFirstOrdered(items[1..], n);
      WithinFirstMembers(items[1..], n);
      if items[0].pos < n {
        ConsOrdered(Cmp(true), items[0], WithinFirst(items[1..], n));
      } else {
        assert WithinFirst(items, n) == WithinFirst(items[1..], n);
      }
    }
  }

  lemma {:induction false} WithinFirstPrefix(items: seq<Item>, n: nat, k: nat)
    requires k <= |items| && forall j | 0 <= j < k :: items[j].pos < n
    ensures k <= |WithinFirst(items, n)| && WithinFirst(items, n)[..k] == items[..k]
  {
    if k > 0 {
      WithinFirstPrefix(items[1..], n, k - 1);
      assert items[..k] == [items[0]] + items[1..][..k - 1];
      assert WithinFirst(items, n)[..k] == [items[0]] + WithinFirst(items[1..], n)[..k - 1];
    }
  }

  lemma IndexBefore(items: seq<Item>, i: nat, j: nat)
    requires Ordered(Cmp(true), items) && i < |items| && j < |items| && Before(true, items[i], items[j])
    ensures i < j
  {
    OrderedPair(items, i, j);
  }

  lemma OrderedPair(items: seq<Item>, i: nat, j: nat)
    requires Ordered(Cmp(true), items) && i < |items| && j < |items|
    ensures j < i ==> Before(true, items[j], items[i])
  {
    if j < i { assert Cmp(true)(items[j], items[i]); }
  }

  /** A row at position p of its shard's answer cannot stand earlier than p in the merge. */
  lemma {:induction false} PosAtMostIndex(items: seq<Item>, bodies: seq<seq<Row>>, j: nat)
    requires NewestFirst(bodies) && Ordered(Cmp(true), items) && (forall x :: x in items <==> Tagged(x, bodies))
    requires j < |items|
    ensures items[j].pos <= j
    decreases items[j].pos
  {
    var x := items[j];
    assert x in items;
    if x.pos > 0 {
      var row := bodies[x.shard][x.pos - 1];
      var y := Item(row.time, x.shard, x.pos - 1, row);
      assert Tagged(y, bodies);
      assert Before(true, y, x) && !Before(true, x, y);
      var i :| 0 <= i < |items| && items[i] == y;
      IndexBefore(items, i, j);
      PosAtMostIndex(items, bodies, i);
    }
  }

  lemma CutTagged(bodies: seq<seq<Row>>, n: nat, x: Item)
    ensures Tagged(x, Cut(bodies, n)) <==> Tagged(x, bodies) && x.pos < n
  {
  }

  /** The merge of the cut answers is the merge of everything without the rows that were cut. */
  lemma CutMerge(order: seq<nat>, bodies: seq<seq<Row>>, n: nat)
    requires Finishes(order, |bodies|)
    ensures Merged(true, order, Cut(bodies, n)) == WithinFirst(Merged(true, order, bodies), n)
  {
    var all := Merged(true, order, bodies);
    MergedRight(true, order, bodies);
    WithinFirstMembers(all, n);
    WithinFirstOrdered(all, n);
    forall x ensures x in WithinFirst(all, n) <==> Tagged(x, Cut(bodies, n)) { CutTagged(bodies, n, x); }
    MergedUnique(true, order, Cut(bodies, n), WithinFirst(all, n));
  }

  /** Merging each shard's newest n and keeping n is keeping the newest n of everything, ties and all. */
  lemma NewestOfNewest(order: seq<nat>, bodies: seq<seq<Row>>, n: nat)
    requires Finishes(order, |bodies|) && NewestFirst(bodies)
    ensures Take(Merged(true, order, Cut(bodies, n)), n) == Take(Merged(true, order, bodies), n)
  {
    CutMerge(order, bodies, n);
    MergedRight(true, order, bodies);
    NewestKept(Merged(true, order, bodies), bodies, n);
  }

  lemma NewestKept(all: seq<Item>, bodies: seq<seq<Row>>, n: nat)
    requires NewestFirst(bodies) && Ordered(Cmp(true), all) && (forall x :: x in all <==> Tagged(x, bodies))
    ensures Take(WithinFirst(all, n), n) == Take(all, n)
  {
    var k := if n <= |all| then n else |all|;
    forall j: nat | j < k ensures all[j].pos < n { PosAtMostIndex(all, bodies, j); }
    PrefixKept(all, n, k);
  }

  lemma PrefixKept(all: seq<Item>, n: nat, k: nat)
    requires k == if n <= |all| then n else |all|
    requires forall j | 0 <= j < k :: all[j].pos < n
    ensures Take(WithinFirst(all, n), n) == Take(all, n)
  {
    var kept := WithinFirst(all, n);
    WithinFirstPrefix(all, n, k);
    WithinFirstLength(all, n);
    if n > |all| { assert kept[..k] == kept && all[..k] == all; }
  }

  lemma {:induction false} WithinFirstLength(items: seq<Item>, n: nat)
    ensures |WithinFirst(items, n)| <= |items|
  {
    if items != [] { WithinFirstLength(items[1..], n); }
  }
}
