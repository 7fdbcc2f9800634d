/** One write id over the shards of a cluster.

The router hashes the id to a shard and sends an attempt to a replica of it; anything may then happen
on any shard, and the number of shards the router knows may be changed between attempts. */
module WritesCluster {
  import opened Basics
  import opened Writes

  // ------------------------------------------------------------------ the shard of an id

  const OFFSET: nat := 14695981039346656037
  const PRIME: nat := 1099511628211

  /** Bitwise exclusive or. */
  function Xor(a: nat, b: nat): nat {
    if a == 0 then b else if b == 0 then a else (a % 2 + b % 2) % 2 + 2 * Xor(a / 2, b / 2)
  }

  function Bit(n: nat, i: nat): nat {
    if i == 0 then n % 2 else Bit(n / 2, i - 1)
  }

  /** A bit of it is set exactly when one of the two is. */
  lemma {:induction false} XorExactly(a: nat, b: nat, i: nat)
    ensures Bit(Xor(a, b), i) == if Bit(a, i) == Bit(b, i) then 0 else 1
    decreases a + b, i
  {
    if a == 0 || b == 0 {
      ZeroBits(i);
      BitIsBit(a, i);
      BitIsBit(b, i);
    } else {
      var low, high := (a % 2 + b % 2) % 2, Xor(a / 2, b / 2);
      assert Xor(a, b) == low + 2 * high && (low + 2 * high) % 2 == low && (low + 2 * high) / 2 == high;
      if i > 0 { XorExactly(a / 2, b / 2, i - 1); }
    }
  }

  lemma {:induction false} ZeroBits(i: nat)
    ensures Bit(0, i) == 0
  {
    if i > 0 { ZeroBits(i - 1); }
  }

  lemma {:induction false} BitIsBit(n: nat, i: nat)
    ensures Bit(n, i) == 0 || Bit(n, i) == 1
    decreases i
  {
    if i > 0 { BitIsBit(n / 2, i - 1); }
  }

  /** One step of FNV-1a in 64 bits: the byte is xored in, then the product wraps. */
  function Mix(h: nat, c: byte): nat {
    Xor(h, c) * PRIME % WORD
  }

  function Fnv(id: Bytes): nat {
    if id == [] then OFFSET else Mix(Fnv(id[..|id| - 1]), id[|id| - 1])
  }

  /** The published value of the hash for the one-byte text "a". */
  lemma FnvOfA(id: Bytes)
    requires |id| == 1 && id[0] == 97
    ensures Fnv(id) == 0xaf63_dc4c_8601_ec8c
  {
    assert Fnv(id[..0]) == OFFSET;
    XorOfA();
    Wraps(Xor(OFFSET, 97) * PRIME, 875948729822, 0xaf63_dc4c_8601_ec8c);
  }

  lemma Wraps(x: nat, q: nat, r: nat)
    requires x == q * WORD + r && r < WORD
    ensures x % WORD == r
  {
  }

  lemma XorOfA()
    ensures Xor(OFFSET, 97) == 14695981039346656068
  {
    assert Xor(114812351869895750, 0) == 114812351869895750;
    assert Xor(229624703739791500, 1) == 229624703739791501;
    assert Xor(459249407479583001, 3) == 459249407479583002;
    assert Xor(918498814959166002, 6) == 918498814959166004;
    assert Xor(1836997629918332004, 12) == 1836997629918332008;
    assert Xor(3673995259836664009, 24) == 3673995259836664017;
    assert Xor(7347990519673328018, 48) == 7347990519673328034;
  }

  function Home(id: Bytes, count: nat): (k: nat)
    ensures count > 0 ==> k < count
  {
    if count == 0 then 0 else Fnv(id) % count
  }

  method WriteShardIndex(id: Bytes, count: nat) returns (index: nat)
    requires count > 0
    ensures index == Home(id, count)
  {
    var h := OFFSET;
    var i := 0;
    while i < |id|
      invariant 0 <= i <= |id| && h == Fnv(id[..i])
    {
      assert id[..i + 1][..i] == id[..i];
      h := Mix(h, id[i]);
      i := i + 1;
    }
    assert id[..i] == id;
    index := h % count;
  }

  // ------------------------------------------------------------------ runs of a cluster

  /** count: how many of the shards the router spreads its writes over. */
  datatype Cluster = Cluster(id: Bytes, count: nat, shards: seq<State>)

  datatype Step =
    | Route(r: nat)
    | On(shard: nat, e: Event)
    | Resize(count: nat)

  /** Only the router sends. */
  predicate Local(e: Event) {
    !e.Send?
  }

  function Deliver(c: Cluster, k: nat, e: Event): Cluster {
    if k < |c.shards| then c.(shards := c.shards[k := Next(c.shards[k], e)]) else c
  }

  function Take(c: Cluster, step: Step): Cluster {
    match step
    case Route(r) => Deliver(c, Home(c.id, c.count), Send(r))
    case On(k, e) => if Local(e) then Deliver(c, k, e) else c
    case Resize(count) => if 0 < count <= |c.shards| then c.(count := count) else c
  }

  /** total shards of n replicas each, the first count of them in use. */
  function Begin(id: Bytes, n: nat, total: nat, count: nat): Cluster {
    Cluster(id, count, seq(total, k => Start(n)))
  }

  function Run(id: Bytes, n: nat, total: nat, count: nat, steps: seq<Step>): Cluster {
    if steps == [] then Begin(id, n, total, count)
    else Take(Run(id, n, total, count, steps[..|steps| - 1]), steps[|steps| - 1])
  }

  /** The router's send of one attempt. */
  method SendAttempt(c: Cluster, r: nat) returns (next: Cluster)
    requires 0 < c.count <= |c.shards|
    ensures next == Take(c, Route(r))
  {
    var k := WriteShardIndex(c.id, c.count);
    next := c.(shards := c.shards[k := Next(c.shards[k], Send(r))]);
  }

  lemma {:induction false} RunShape(id: Bytes, n: nat, total: nat, count: nat, steps: seq<Step>)
    requires 0 < count <= total
    ensures var c := Run(id, n, total, count, steps); c.id == id && |c.shards| == total && 0 < c.count <= total
  {
    if steps != [] { RunShape(id, n, total, count, steps[..|steps| - 1]); }
  }

  /** What a step brings to shard k. */
  function Felt(c: Cluster, step: Step, k: nat): (r: seq<Event>)
    ensures |r| <= 1
  {
    match step
    case Route(r) => if Home(c.id, c.count) == k then [Send(r)] else []
    case On(shard, e) => if shard == k && Local(e) then [e] else []
    case Resize(_) => []
  }

  lemma FeltRight(c: Cluster, step: Step, k: nat)
    requires k < |c.shards|
    ensures |Take(c, step).shards| == |c.shards|
    ensures Take(c, step).shards[k] == if Felt(c, step, k) == [] then c.shards[k] else Next(c.shards[k], Felt(c, step, k)[0])
  {
  }

  /** What happens on shard k during a run: the events of its own. */
  function Own(id: Bytes, n: nat, total: nat, count: nat, steps: seq<Step>, k: nat): seq<Event> {
    if steps == [] then []
    else
      var before := steps[..|steps| - 1];
      Own(id, n, total, count, before, k) + Felt(Run(id, n, total, count, before), steps[|steps| - 1], k)
  }

  /** Every shard goes through a run of its own, so all that holds of every run of one shard's replicas
      holds of each shard of a cluster. */
  lemma {:induction false} EachShardRuns(id: Bytes, n: nat, total: nat, count: nat, steps: seq<Step>, k: nat)
    requires 0 < count <= total && k < total
    ensures |Run(id, n, total, count, steps).shards| == total
    ensures Run(id, n, total, count, steps).shards[k] == Exec(n, Own(id, n, total, count, steps, k))
  {
    if steps != [] {
      var before, step := steps[..|steps| - 1], steps[|steps| - 1];
      EachShardRuns(id, n, total, count, before, k);
      var c, own := Run(id, n, total, count, before), Own(id, n, total, count, before, k);
      FeltRight(c, step, k);
      var felt := Felt(c, step, k);
      if felt == [] {
        assert own + felt == own;
      } else {
        assert felt == [felt[0]];
        ExecSnoc(n, own, felt[0]);
      }
    }
  }

  // ------------------------------------------------------------------ a constant count

  predicate Constant(count: nat, steps: seq<Step>) {
    forall i | 0 <= i < |steps| && steps[i].Resize? :: steps[i].count == count
  }

  /** While the number of shards stays as it is, every attempt of an id is on one shard: in every run no
      other shard sees an attempt, or holds a copy or a receipt. */
  lemma {:induction false} EveryAttemptOnHome(id: Bytes, n: nat, total: nat, count: nat, steps: seq<Step>, k: nat)
    requires 0 < count <= total && k < total && Constant(count, steps)
    ensures var c := Run(id, n, total, count, steps);
            c.count == count && |c.shards| == total && (k != Home(id, count) ==> Untouched(c.shards[k], n))
  {
    RunShape(id, n, total, count, steps);
    if steps != [] {
      var before, step := steps[..|steps| - 1], steps[|steps| - 1];
      EveryAttemptOnHome(id, n, total, count, before, k);
      RunShape(id, n, total, count, before);
      var c := Run(id, n, total, count, before);
      if step.On? && step.shard == k && k != Home(id, count) && Local(step.e) {
        UntouchedStays(c.shards[k], n, step.e);
      }
    }
  }

  predicate Untouched(s: State, n: nat) {
    s == Start(n)
  }

  /** Nothing can happen on a shard no attempt was sent to. */
  lemma UntouchedStays(s: State, n: nat, e: Event)
    requires Untouched(s, n) && Local(e)
    ensures Untouched(Next(s, e), n)
  {
    assert s.attempts == [];
    if e.Crash? { assert Next(s, e).attempts == []; }
  }

  function Copies(c: Cluster, k: nat, r: nat): nat {
    if k < |c.shards| && r < |c.shards[k].replicas| then c.shards[k].replicas[r].copies else 0
  }

  /** So in a cluster of constant size, when what happens on the id's shard is calm, no replica of any
      shard stores the rows twice, and only that shard stores them at all. */
  lemma NoRowTwiceInCluster(id: Bytes, n: nat, total: nat, count: nat, steps: seq<Step>, k: nat, r: nat)
    requires 0 < count <= total && Constant(count, steps)
    requires CalmRun(n, Own(id, n, total, count, steps, Home(id, count)))
    ensures var c := Run(id, n, total, count, steps);
            Copies(c, k, r) <= (if k == Home(id, count) then 1 else 0)
  {
    RunShape(id, n, total, count, steps);
    if k < total {
      EveryAttemptOnHome(id, n, total, count, steps, k);
      if k == Home(id, count) {
        EachShardRuns(id, n, total, count, steps, k);
        NoRowTwice(n, Own(id, n, total, count, steps, k));
      }
    }
  }

  // ------------------------------------------------------------------ a changed count

  function TakeAll(c: Cluster, steps: seq<Step>): Cluster {
    if steps == [] then c else Take(TakeAll(c, steps[..|steps| - 1]), steps[|steps| - 1])
  }

  lemma TakeSnoc(c: Cluster, steps: seq<Step>, step: Step)
    ensures TakeAll(c, steps + [step]) == Take(TakeAll(c, steps), step)
  {
    assert (steps + [step])[..|steps|] == steps;
  }

  lemma {:induction false} TakeConcat(c: Cluster, a: seq<Step>, b: seq<Step>)
    ensures TakeAll(c, a + b) == TakeAll(TakeAll(c, a), b)
  {
    if b == [] {
      assert a + b == a;
    } else {
      var n := |b| - 1;
      TakeConcat(c, a, b[..n]);
      assert a + b == a + b[..n] + [b[n]];
      TakeSnoc(c, a + b[..n], b[n]);
    }
  }

  lemma {:induction false} RunIsTakeAll(id: Bytes, n: nat, total: nat, count: nat, steps: seq<Step>)
    ensures Run(id, n, total, count, steps) == TakeAll(Begin(id, n, total, count), steps)
  {
    if steps != [] { RunIsTakeAll(id, n, total, count, steps[..|steps| - 1]); }
  }

  /** One whole attempt on replica 0 of shard k, the a-th there, nothing going wrong. */
  function Whole(k: nat, a: nat): seq<Step> {
    [Route(0), On(k, Check(a, true)), On(k, Handle(a, Done)), On(k, Record(a, true))]
  }

  /** What a whole attempt makes of a shard. */
  function Attempting(s: State, a: nat): State {
    Next(Next(Next(Next(s, Send(0)), Check(a, true)), Handle(a, Done)), Record(a, true))
  }

  lemma WholeTaken(c: Cluster, k: nat, a: nat)
    requires k == Home(c.id, c.count) && k < |c.shards|
    ensures TakeAll(c, Whole(k, a)) == c.(shards := c.shards[k := Attempting(c.shards[k], a)])
  {
    var s0 := [Route(0)];
    var s1 := s0 + [On(k, Check(a, true))];
    var s2 := s1 + [On(k, Handle(a, Done))];
    assert Whole(k, a) == s2 + [On(k, Record(a, true))];
    TakeSnoc(c, s2, On(k, Record(a, true)));
    TakeSnoc(c, s1, On(k, Handle(a, Done)));
    TakeSnoc(c, s0, On(k, Check(a, true)));
    assert s0[..0] == [];
  }

  lemma FirstAttempt(n: nat)
    requires n > 0
    ensures var s := Attempting(Start(n), 0);
            s.attempts == [Attempt(0, Answered(true))] && |s.replicas| == n && s.replicas[0] == Replica(1, true)
            && forall r | 0 < r < n :: s.replicas[r] == Replica(0, false)
  {
    var s := Start(n);
    assert s.attempts + [Attempt(0, Sent)] == [Attempt(0, Sent)];
  }

  /** A second attempt that meets the receipt stores nothing. */
  lemma SecondAttempt(s: State)
    requires |s.replicas| > 0 && s.replicas[0].receipt && s.attempts == [Attempt(0, Answered(true))]
    ensures Attempting(s, 1).replicas == s.replicas
  {
    var t := Next(s, Send(0));
    assert t.attempts[1] == Attempt(0, Sent);
    var u := Next(t, Check(1, true));
    assert u.attempts[1] == Attempt(0, Answered(true)) && u.replicas == s.replicas;
  }

  /** A write stored and acknowledged, the number of shards changed, and the same write sent again. */
  function Again(id: Bytes, was: nat, now: nat): seq<Step> {
    Whole(Home(id, was), 0) + ([Resize(now)] + Whole(Home(id, now), if Home(id, now) == Home(id, was) then 1 else 0))
  }

  predicate Holds(c: Cluster, k: nat) {
    Copies(c, k, 0) > 0
  }

  /** The retry meets the receipt of the first attempt, or the rows end up on a second shard: exactly
      as the id's shard is the same under both counts, or not. */
  lemma RetryAfterResizeExactly(id: Bytes, n: nat, total: nat, was: nat, now: nat)
    requires n > 0 && 0 < was <= total && 0 < now <= total
    ensures var c := Run(id, n, total, was, Again(id, was, now));
            && (forall k: nat :: Holds(c, k) <==> k == Home(id, was) || k == Home(id, now))
            && ((exists j: nat, k: nat :: j != k && Holds(c, j) && Holds(c, k)) <==> Home(id, was) != Home(id, now))
  {
    var c0 := Begin(id, n, total, was);
    var k, j := Home(id, was), Home(id, now);
    var a := if j == k then 1 else 0;
    RunIsTakeAll(id, n, total, was, Again(id, was, now));
    TakeConcat(c0, Whole(k, 0), [Resize(now)] + Whole(j, a));
    WholeTaken(c0, k, 0);
    var c1 := c0.(shards := c0.shards[k := Attempting(Start(n), 0)]);
    TakeConcat(c1, [Resize(now)], Whole(j, a));
    assert [Resize(now)][..0] == [];
    var c2 := c1.(count := now);
    assert TakeAll(c1, [Resize(now)]) == c2;
    WholeTaken(c2, j, a);
    var c := c2.(shards := c2.shards[j := Attempting(c2.shards[j], a)]);
    assert Run(id, n, total, was, Again(id, was, now)) == c;
    Landed(n, c1, c, k, j);
  }

  lemma Landed(n: nat, before: Cluster, after: Cluster, k: nat, j: nat)
    requires n > 0 && k < |before.shards| && j < |before.shards|
    requires before.shards == seq(|before.shards|, i => Start(n))[k := Attempting(Start(n), 0)]
    requires after.shards == before.shards[j := Attempting(before.shards[j], if j == k then 1 else 0)]
    ensures forall i: nat :: Holds(after, i) <==> i == k || i == j
    ensures (exists i: nat, l: nat :: i != l && Holds(after, i) && Holds(after, l)) <==> k != j
  {
    FirstAttempt(n);
    if j == k { SecondAttempt(before.shards[k]); }
    forall i: nat ensures Holds(after, i) <==> i == k || i == j {}
    if k != j { assert Holds(after, k) && Holds(after, j); }
  }

  /** Both happen: an id of even bytes hashes to an odd number, so a second shard takes its retry. */
  lemma EvenIdsMove(id: Bytes)
    requires forall i | 0 <= i < |id| :: id[i] % 2 == 0
    ensures Home(id, 1) == 0 && Home(id, 2) == 1
  {
    OddHash(id);
  }

  lemma {:induction false} OddHash(id: Bytes)
    requires forall i | 0 <= i < |id| :: id[i] % 2 == 0
    ensures Fnv(id) % 2 == 1
  {
    if id != [] {
      OddHash(id[..|id| - 1]);
      MixOdd(Fnv(id[..|id| - 1]), id[|id| - 1]);
    }
  }

  lemma MixOdd(h: nat, c: byte)
    requires h % 2 == 1 && c % 2 == 0
    ensures Mix(h, c) % 2 == 1
  {
    assert Xor(h, c) % 2 == 1;
    OddProduct(Xor(h, c));
  }

  lemma WrapKeepsParity(y: nat)
    ensures y % WORD % 2 == y % 2
  {
    var q, r := y / WORD, y % WORD;
    assert y == q * WORD + r;
    assert y == 2 * (q * (WORD / 2)) + r;
  }

  lemma OddProduct(x: nat)
    requires x % 2 == 1
    ensures x * PRIME % WORD % 2 == 1
  {
    var h := x / 2;
    assert x * PRIME == 2 * (h * PRIME + PRIME / 2) + 1;
    WrapKeepsParity(x * PRIME);
  }
}
