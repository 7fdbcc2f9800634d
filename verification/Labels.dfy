/** The key a label set is merged under: its names in order, each with its value, ended by NUL. */
module Labels {
  import opened Sorting

  type Labels = map<string, string>

  const NUL: char := '\0'

  function Flat(parts: seq<string>): string {
    if parts == [] then "" else parts[0] + [NUL] + Flat(parts[1..])
  }

  /** Names and values in turn, names in order. */
  function Parts(labels: Labels, names: seq<string>): seq<string>
    requires forall i | 0 <= i < |names| :: names[i] in labels
  {
    if names == [] then [] else [names[0], labels[names[0]]] + Parts(labels, names[1..])
  }

  const LEX := (a: string, b: string) => LexLess(a, b)

  ghost predicate InOrder(labels: Labels, names: seq<string>) {
    Ordered(LEX, names) && Elems(names) == labels.Keys && forall i | 0 <= i < |names| :: names[i] in labels
  }

  ghost predicate NulFree(labels: Labels) {
    forall name | name in labels :: NUL !in name && NUL !in labels[name]
  }

  lemma LexTotalOn(s: set<string>)
    ensures TotalOn(LEX, s)
  {
    forall a: string, b: string ensures !LexLess(a, a) && (a != b ==> LexLess(a, b) || LexLess(b, a)) { LexTotal(a, b); }
    forall a: string, b: string, c: string | LexLess(a, b) && LexLess(b, c) ensures LexLess(a, c) { LexTransitive(a, b, c); }
  }

  ghost function Listing(s: set<string>): (r: seq<string>)
    ensures NoDup(r) && Elems(r) == s
  {
    if s == {} then []
    else
      var x :| x in s;
      var rest := Listing(s - {x});
      assert x !in Elems(rest);
      ListedFirst(x, rest);
      [x] + rest
  }

  lemma ListedFirst(x: string, rest: seq<string>)
    requires NoDup(rest) && x !in Elems(rest)
    ensures NoDup([x] + rest) && Elems([x] + rest) == {x} + Elems(rest)
  {
    forall i, j | 0 <= i < j < |rest| + 1 ensures ([x] + rest)[i] != ([x] + rest)[j] {
      assert ([x] + rest)[j] == rest[j - 1] && rest[j - 1] in Elems(rest);
    }
  }

  /** The names of a label set in order. */
  ghost function Names(labels: Labels): (names: seq<string>)
    ensures InOrder(labels, names)
  {
    var listed := Listing(labels.Keys);
    LexTotalOn(Elems(listed));
    SortOrders(LEX, listed);
    var sorted := Sort(LEX, listed);
    assert forall i | 0 <= i < |sorted| :: sorted[i] in Elems(sorted);
    sorted
  }

  ghost function Key(labels: Labels): string {
    Flat(Parts(labels, Names(labels)))
  }

  lemma NamesUnique(labels: Labels, names: seq<string>)
    requires InOrder(labels, names)
    ensures names == Names(labels)
  {
    LexTotalOn(Elems(names));
    OrderedUnique(LEX, names, Names(labels));
  }

  method LabelKey(labels: Labels) returns (key: string)
    ensures key == Key(labels)
  {
    var listed := ListNames(labels);
    LexTotalOn(Elems(listed));
    SortOrders(LEX, listed);
    var sorted := Sort(LEX, listed);
    forall i | 0 <= i < |sorted| ensures sorted[i] in labels { assert sorted[i] in Elems(sorted); }
    NamesUnique(labels, sorted);
    key := WriteParts(labels, sorted);
  }

  method WriteParts(labels: Labels, names: seq<string>) returns (key: string)
    requires forall i | 0 <= i < |names| :: names[i] in labels
    ensures key == Flat(Parts(labels, names))
  {
    key := "";
    var i := 0;
    assert names[0..] == names && "" + Flat(Parts(labels, names)) == Flat(Parts(labels, names));
    while i < |names|
      invariant 0 <= i <= |names|
      invariant key + Flat(Parts(labels, names[i..])) == Flat(Parts(labels, names))
    {
      FlatStep(labels, names, i);
      var more := names[i] + [NUL] + labels[names[i]] + [NUL];
      Onwards(key, more, Flat(Parts(labels, names[i + 1..])));
      key := key + more;
      i := i + 1;
    }
    assert names[i..] == [];
    assert key + "" == key;
  }

  lemma Onwards(done: string, x: string, more: string)
    ensures done + (x + more) == done + x + more
  {
  }

  lemma FlatStep(labels: Labels, names: seq<string>, i: nat)
    requires i < |names| && forall j | 0 <= j < |names| :: names[j] in labels
    ensures Flat(Parts(labels, names[i..])) ==
            names[i] + [NUL] + labels[names[i]] + [NUL] + Flat(Parts(labels, names[i + 1..]))
  {
    assert names[i..][1..] == names[i + 1..];
    var more := Parts(labels, names[i + 1..]);
    var name, value := names[i], labels[names[i]];
    assert ([name, value] + more)[1..] == [value] + more && ([value] + more)[1..] == more;
    assert name + [NUL] + (value + [NUL] + Flat(more)) == name + [NUL] + value + [NUL] + Flat(more);
  }

  method ListNames(labels: Labels) returns (names: seq<string>)
    ensures NoDup(names) && Elems(names) == labels.Keys
  {
    names := [];
    var left := labels.Keys;
    while left != {}
      invariant left <= labels.Keys && NoDup(names)
      invariant forall k :: k in names <==> k in labels && k !in left
    {
      var k :| k in left;
      left := left - {k};
      names := names + [k];
    }
    assert forall k :: k in Elems(names) <==> k in labels;
  }

  lemma {:induction false} CutAtNul(a: string, b: string, x: string, y: string)
    requires NUL !in a && NUL !in b && a + [NUL] + x == b + [NUL] + y
    ensures a == b && x == y
  {
    var s, t := a + [NUL] + x, b + [NUL] + y;
    if a == "" || b == "" {
      assert s[0] == t[0];
      assert a == "" && b == "";
      assert s[1..] == x && t[1..] == y;
    } else {
      assert s[0] == a[0] && t[0] == b[0];
      assert s[1..] == a[1..] + [NUL] + x && t[1..] == b[1..] + [NUL] + y;
      CutAtNul(a[1..], b[1..], x, y);
      assert a == [a[0]] + a[1..] && b == [b[0]] + b[1..];
    }
  }

  lemma {:induction false} FlatInjective(p: seq<string>, q: seq<string>)
    requires (forall s | s in p :: NUL !in s) && (forall s | s in q :: NUL !in s) && Flat(p) == Flat(q)
    ensures p == q
  {
    if p != [] && q != [] {
      assert p[0] in p && q[0] in q;
      CutAtNul(p[0], q[0], Flat(p[1..]), Flat(q[1..]));
      FlatInjective(p[1..], q[1..]);
      assert p == [p[0]] + p[1..] && q == [q[0]] + q[1..];
    }
  }

  lemma {:induction false} PartsNulFree(labels: Labels, names: seq<string>)
    requires NulFree(labels) && forall i | 0 <= i < |names| :: names[i] in labels
    ensures forall s | s in Parts(labels, names) :: NUL !in s
  {
    if names != [] { PartsNulFree(labels, names[1..]); }
  }

  lemma {:induction false} PartsInjective(a: Labels, m: seq<string>, b: Labels, n: seq<string>)
    requires (forall i | 0 <= i < |m| :: m[i] in a) && (forall i | 0 <= i < |n| :: n[i] in b)
    requires Parts(a, m) == Parts(b, n)
    ensures m == n && forall i | 0 <= i < |m| :: a[m[i]] == b[m[i]]
  {
    if m != [] && n != [] {
      var p, q := Parts(a, m), Parts(b, n);
      assert p[0] == m[0] && q[0] == n[0] && p[1] == a[m[0]] && q[1] == b[n[0]];
      assert p[2..] == Parts(a, m[1..]) && q[2..] == Parts(b, n[1..]);
      PartsInjective(a, m[1..], b, n[1..]);
      assert m == [m[0]] + m[1..] && n == [n[0]] + n[1..];
    }
  }

  /** Label sets without a NUL byte share a key only when they are the same set, so series of different
      label sets are never merged. */
  lemma LabelKeyInjective(a: Labels, b: Labels)
    requires NulFree(a) && NulFree(b) && Key(a) == Key(b)
    ensures a == b
  {
    var m, n := Names(a), Names(b);
    PartsNulFree(a, m);
    PartsNulFree(b, n);
    FlatInjective(Parts(a, m), Parts(b, n));
    PartsInjective(a, m, b, n);
    assert a.Keys == b.Keys;
    forall k | k in a ensures a[k] == b[k] {
      assert k in Elems(m);
    }
  }

  lemma OneName(name: string, value: string)
    ensures Key(map[name := value]) == name + [NUL] + value + [NUL]
  {
    var labels := map[name := value];
    assert Elems([name]) == {name};
    NamesUnique(labels, [name]);
    FlatStep(labels, [name], 0);
    assert [name][1..] == [] && [name][0..] == [name];
    assert Flat(Parts(labels, [])) == "";
    assert name + [NUL] + value + [NUL] + "" == name + [NUL] + value + [NUL];
  }

  /** Under one name the key tells any two values apart, NUL or not. */
  lemma OneNameInjective(name: string, u: string, v: string)
    requires Key(map[name := u]) == Key(map[name := v])
    ensures u == v
  {
    OneName(name, u);
    OneName(name, v);
    var k := Key(map[name := u]);
    assert u == k[|name| + 1..|k| - 1] && v == k[|name| + 1..|k| - 1];
  }

  /** Names and values drawn from an alphabet. */
  ghost predicate Written(labels: Labels, alphabet: set<char>) {
    forall name | name in labels :: (forall c | c in name :: c in alphabet) && forall c | c in labels[name] :: c in alphabet
  }

  /** The key tells the label sets over an alphabet apart exactly when NUL is not in it. */
  lemma LabelKeyInjectiveExactly(alphabet: set<char>)
    ensures (forall a, b | Written(a, alphabet) && Written(b, alphabet) && Key(a) == Key(b) :: a == b) <==> NUL !in alphabet
  {
    if NUL in alphabet {
      NulCollides();
      var a: Labels, b: Labels := map["" := [NUL]], map[[NUL] := ""];
      assert Written(a, alphabet) && Written(b, alphabet);
      assert a != b && Key(a) == Key(b);
    } else {
      forall a, b | Written(a, alphabet) && Written(b, alphabet) && Key(a) == Key(b) ensures a == b {
        LabelKeyInjective(a, b);
      }
    }
  }

  lemma NulCollides()
    ensures Key(map["" := [NUL]]) == Key(map[[NUL] := ""]) && map["" := [NUL]] != map[[NUL] := ""]
  {
    OneName("", [NUL]);
    OneName([NUL], "");
    assert "" + [NUL] + [NUL] + [NUL] == [NUL] + [NUL] + "" + [NUL];
    assert "" in map["" := [NUL]] && "" !in map[[NUL] := ""];
  }
}
