/** Sorting by a strict total order.

The repository sorts with `sort.Slice`, which is neither stable nor told in which
order its input arrived (map iteration, goroutine completion). What makes its
answers reproducible is that every comparator is a strict total order on the
elements present, so there is exactly one ordered arrangement of a given set.
*/
module Sorting {

  /** lt orders the members of s strictly and totally. */
  ghost predicate TotalOn<T>(lt: (T, T) -> bool, s: set<T>) {
    && (forall a | a in s :: !lt(a, a))
    && (forall a, b | a in s && b in s && a != b :: lt(a, b) || lt(b, a))
    && (forall a, b, c | a in s && b in s && c in s && lt(a, b) && lt(b, c) :: lt(a, c))
  }

  ghost function Elems<T>(s: seq<T>): set<T> {
    set x | x in s
  }

  /** Strictly ascending, hence without repetition under an irreflexive order. */
  ghost predicate Ordered<T>(lt: (T, T) -> bool, s: seq<T>) {
    forall i, j | 0 <= i < j < |s| :: lt(s[i], s[j])
  }

  ghost predicate NoDup<T>(s: seq<T>) {
    forall i, j | 0 <= i < j < |s| :: s[i] != s[j]
  }

  function Insert<T>(lt: (T, T) -> bool, x: T, s: seq<T>): seq<T> {
    if s == [] then [x]
    else if lt(x, s[0]) then [x] + s
    else [s[0]] + Insert(lt, x, s[1..])
  }

  function Sort<T>(lt: (T, T) -> bool, s: seq<T>): seq<T> {
    if s == [] then [] else Insert(lt, s[0], Sort(lt, s[1..]))
  }

  lemma {:induction false} InsertElems<T>(lt: (T, T) -> bool, x: T, s: seq<T>)
    ensures Elems(Insert(lt, x, s)) == Elems(s) + {x}
    ensures |Insert(lt, x, s)| == |s| + 1
  {
    if s != [] && !lt(x, s[0]) {
      InsertElems(lt, x, s[1..]);
      assert Insert(lt, x, s) == [s[0]] + Insert(lt, x, s[1..]);
      assert Elems(s) == {s[0]} + Elems(s[1..]);
      assert Elems(Insert(lt, x, s)) == {s[0]} + Elems(Insert(lt, x, s[1..]));
    }
  }

  lemma ConsOrdered<T>(lt: (T, T) -> bool, x: T, s: seq<T>)
    requires Ordered(lt, s) && forall y | y in s :: lt(x, y)
    ensures Ordered(lt, [x] + s)
  {
    forall i, j | 0 <= i < j < |s| + 1 ensures lt(([x] + s)[i], ([x] + s)[j]) {
      if i > 0 { assert lt(s[i - 1], s[j - 1]); } else { assert s[j - 1] in s; }
    }
  }

  lemma {:induction false} InsertOrdered<T>(lt: (T, T) -> bool, x: T, s: seq<T>)
    requires Ordered(lt, s) && x !in s
    requires TotalOn(lt, Elems(s) + {x})
    ensures Ordered(lt, Insert(lt, x, s))
  {
    if s != [] {
      var all := Elems(s) + {x};
      assert s[0] in all && x in all;
      if lt(x, s[0]) {
        forall y | y in s ensures lt(x, y) {
          var k :| 0 <= k < |s| && s[k] == y;
          assert y in all && (k > 0 ==> lt(s[0], y));
        }
        ConsOrdered(lt, x, s);
      } else {
        assert lt(s[0], x);
        assert forall j | 0 <= j < |s| - 1 :: s[1..][j] == s[j + 1];
        assert Elems(s[1..]) + {x} <= all;
        InsertOrdered(lt, x, s[1..]);
        InsertElems(lt, x, s[1..]);
        var r := Insert(lt, x, s[1..]);
        forall y | y in r ensures lt(s[0], y) {
          assert y in Elems(r);
          if y != x {
            var k :| 0 <= k < |s[1..]| && s[1..][k] == y;
            assert lt(s[0], s[k + 1]);
          }
        }
        ConsOrdered(lt, s[0], r);
      }
    }
  }

  /** Sorting a duplicate-free sequence keeps its members and orders them. */
  lemma {:induction false} SortOrders<T>(lt: (T, T) -> bool, s: seq<T>)
    requires NoDup(s) && TotalOn(lt, Elems(s))
    ensures Ordered(lt, Sort(lt, s))
    ensures Elems(Sort(lt, s)) == Elems(s)
    ensures |Sort(lt, s)| == |s|
  {
    if s != [] {
      assert s == [s[0]] + s[1..];
      assert forall y | y in s[1..] :: y in s;
      assert Elems(s[1..]) <= Elems(s);
      SortOrders(lt, s[1..]);
      var r := Sort(lt, s[1..]);
      assert s[0] !in s[1..];
      assert s[0] !in Elems(r);
      assert Elems(r) + {s[0]} == Elems(s);
      InsertOrdered(lt, s[0], r);
      InsertElems(lt, s[0], r);
    }
  }

  lemma ElemsNonEmpty<T>(s: seq<T>)
    ensures s != [] ==> Elems(s) != {}
  {
    if s != [] { assert s[0] in Elems(s); }
  }

  /** There is one ordered arrangement of a set: ordered sequences with the same members are equal. */
  lemma {:induction false} OrderedUnique<T>(lt: (T, T) -> bool, a: seq<T>, b: seq<T>)
    requires Ordered(lt, a) && Ordered(lt, b)
    requires Elems(a) == Elems(b) && TotalOn(lt, Elems(a))
    ensures a == b
  {
    if a == [] {
      ElemsNonEmpty(b);
    } else {
      assert a[0] in Elems(a);
      assert b != [];
      assert b[0] in Elems(a) && a[0] in Elems(b);
      var i :| 0 <= i < |b| && b[i] == a[0];
      var j :| 0 <= j < |a| && a[j] == b[0];
      assert a[0] == b[0];
      OrderedTail(lt, a);
      OrderedTail(lt, b);
      assert Elems(a[1..]) <= Elems(a);
      OrderedUnique(lt, a[1..], b[1..]);
      assert a == [a[0]] + a[1..] && b == [b[0]] + b[1..];
    }
  }

  lemma OrderedTail<T>(lt: (T, T) -> bool, s: seq<T>)
    requires s != [] && Ordered(lt, s) && TotalOn(lt, Elems(s))
    ensures Ordered(lt, s[1..]) && Elems(s[1..]) == Elems(s) - {s[0]}
  {
    assert s == [s[0]] + s[1..];
    assert s[0] in Elems(s) && !lt(s[0], s[0]);
    assert forall k | 0 <= k < |s[1..]| :: lt(s[0], s[1..][k]);
    assert s[0] !in s[1..];
  }

  /** Any two arrangements of the same members sort to the same sequence. */
  lemma SortCanonical<T>(lt: (T, T) -> bool, a: seq<T>, b: seq<T>)
    requires NoDup(a) && NoDup(b) && Elems(a) == Elems(b) && TotalOn(lt, Elems(a))
    ensures Sort(lt, a) == Sort(lt, b)
  {
    SortOrders(lt, a);
    SortOrders(lt, b);
    OrderedUnique(lt, Sort(lt, a), Sort(lt, b));
  }

  /** Lexicographic order on strings, as Go compares them. */
  predicate LexLess(a: string, b: string) {
    if b == [] then false
    else if a == [] then true
    else if a[0] != b[0] then a[0] < b[0]
    else LexLess(a[1..], b[1..])
  }

  lemma {:induction false} LexTotal(a: string, b: string)
    ensures !LexLess(a, a)
    ensures a != b ==> LexLess(a, b) || LexLess(b, a)
  {
    if a != [] {
      LexTotal(a[1..], if b == [] then [] else b[1..]);
      if b != [] { assert a == [a[0]] + a[1..] && b == [b[0]] + b[1..]; }
    }
  }

  lemma {:induction false} LexTransitive(a: string, b: string, c: string)
    requires LexLess(a, b) && LexLess(b, c)
    ensures LexLess(a, c)
  {
    if a != [] && a[0] == b[0] && b[0] == c[0] {
      LexTransitive(a[1..], b[1..], c[1..]);
    }
  }

  /** The order of strings is that of their first difference, a proper prefix coming first. */
  lemma {:induction false} LexExactly(a: string, b: string)
    ensures LexLess(a, b) <==>
            exists k: nat :: k <= |a| && k < |b| && a[..k] == b[..k] && (k == |a| || a[k] < b[k])
  {
    if LexLess(a, b) {
      var k := FirstDifference(a, b);
      assert k <= |a| && k < |b| && a[..k] == b[..k] && (k == |a| || a[k] < b[k]);
    }
    if k: nat :| k <= |a| && k < |b| && a[..k] == b[..k] && (k == |a| || a[k] < b[k]) { DiffersAt(a, b, k); }
  }

  lemma {:induction false} FirstDifference(a: string, b: string) returns (k: nat)
    requires LexLess(a, b)
    ensures k <= |a| && k < |b| && a[..k] == b[..k] && (k == |a| || a[k] < b[k])
  {
    k := 0;
    if a != [] && b != [] && a[0] == b[0] {
      k := FirstDifference(a[1..], b[1..]);
      k := k + 1;
      assert a[..k] == [a[0]] + a[1..][..k - 1] && b[..k] == [b[0]] + b[1..][..k - 1];
    }
  }

  lemma {:induction false} DiffersAt(a: string, b: string, k: nat)
    requires k <= |a| && k < |b| && a[..k] == b[..k] && (k == |a| || a[k] < b[k])
    ensures LexLess(a, b)
  {
    if k > 0 {
      assert a[..k][0] == a[0] && b[..k][0] == b[0];
      assert a[1..][..k - 1] == a[..k][1..] && b[1..][..k - 1] == b[..k][1..];
      DiffersAt(a[1..], b[1..], k - 1);
    }
  }
}
