/** Replicated writes: one write id, the replicas of its shard, and every attempt to store it.

An attempt checks for a receipt, runs the handler, which answers success only once the rows are
durable, and then records a receipt. The router sends one attempt to every replica, may lose any
answer, and may send the whole write again. Copies are counted of one row of the request, whichever:
a handler that fails may have stored it or not. */
module Writes {
  import opened Basics
  import opened Sets

  datatype Level = One | Quorum | All

  function Required(level: Level, n: nat): nat {
    match level case One => 1 case Quorum => n / 2 + 1 case All => n
  }

  /** How many durable copies of the row a replica holds, and whether it holds a receipt. */
  datatype Replica = Replica(copies: nat, receipt: bool)

  /** On its way; past the duplicate check and the budget; rows durable; answered; lost in a crash. */
  datatype Phase = Sent | Checked | Stored | Answered(ack: bool) | Dead

  datatype Attempt = Attempt(replica: nat, phase: Phase)

  datatype State = State(replicas: seq<Replica>, attempts: seq<Attempt>)

  /** The whole request stored; a part of it with the row and then an error; an error without the row. */
  datatype Handled = Done | Partly | Failed

  datatype Event =
    | Send(r: nat)
    | Check(a: nat, room: bool)
    | Handle(a: nat, how: Handled)
    | Record(a: nat, ok: bool)
    | Crash(r: nat)

  predicate At(s: State, a: nat, p: Phase) {
    a < |s.attempts| && s.attempts[a].phase == p && s.attempts[a].replica < |s.replicas|
  }

  function Move(s: State, a: nat, p: Phase): State
    requires a < |s.attempts|
  {
    s.(attempts := s.attempts[a := s.attempts[a].(phase := p)])
  }

  function Working(p: Phase): bool {
    p.Sent? || p.Checked? || p.Stored?
  }

  /** What an event does; one that cannot happen does nothing. */
  function Next(s: State, e: Event): (t: State)
    ensures |t.replicas| == |s.replicas|
  {
    match e
    case Send(r) => if r < |s.replicas| then s.(attempts := s.attempts + [Attempt(r, Sent)]) else s
    case Check(a, room) =>
      if !At(s, a, Sent) then s
      else if s.replicas[s.attempts[a].replica].receipt then Move(s, a, Answered(true))
      else Move(s, a, if room then Checked else Answered(false))
    case Handle(a, how) =>
      if !At(s, a, Checked) then s
      else if how == Failed then Move(s, a, Answered(false))
      else
        var r := s.attempts[a].replica;
        Move(s, a, if how == Done then Stored else Answered(false)).(replicas := s.replicas[r := s.replicas[r].(copies := s.replicas[r].copies + 1)])
    case Record(a, ok) =>
      if !At(s, a, Stored) then s
      else
        var r := s.attempts[a].replica;
        var t := Move(s, a, Answered(true));
        if ok then t.(replicas := s.replicas[r := s.replicas[r].(receipt := true)]) else t
    case Crash(r) =>
      s.(attempts := seq(|s.attempts|, i requires 0 <= i < |s.attempts| =>
        if s.attempts[i].replica == r && Working(s.attempts[i].phase) then s.attempts[i].(phase := Dead) else s.attempts[i]))
  }

  function Start(n: nat): State {
    State(seq(n, i => Replica(0, false)), [])
  }

  function Exec(n: nat, events: seq<Event>): (s: State)
    ensures |s.replicas| == n
  {
    if events == [] then Start(n) else Next(Exec(n, events[..|events| - 1]), events[|events| - 1])
  }

  // ------------------------------------------------------------------ what an acknowledgement means

  ghost predicate Sound(s: State) {
    && (forall r | 0 <= r < |s.replicas| && s.replicas[r].receipt :: s.replicas[r].copies >= 1)
    && (forall a | 0 <= a < |s.attempts| ::
          && s.attempts[a].replica < |s.replicas|
          && (s.attempts[a].phase == Stored || s.attempts[a].phase == Answered(true) ==>
                s.replicas[s.attempts[a].replica].copies >= 1))
  }

  lemma NextSound(s: State, e: Event)
    requires Sound(s)
    ensures Sound(Next(s, e))
  {
  }

  /** In every run, whatever is lost, crashed or retried: a receipt means the rows are durable, and so
      does an acknowledgement. */
  lemma {:induction false} EveryRunSound(n: nat, events: seq<Event>)
    ensures Sound(Exec(n, events))
  {
    if events != [] {
      EveryRunSound(n, events[..|events| - 1]);
      NextSound(Exec(n, events[..|events| - 1]), events[|events| - 1]);
    }
  }

  // ------------------------------------------------------------------ one request on a replica

  /** The three steps of an attempt, uninterrupted. */
  function Attempted(replica: Replica, room: bool, handled: Handled, recorded: bool): (s: State)
    ensures |s.replicas| == 1
  {
    After(State([replica], [Attempt(0, Sent)]), Check(0, room), Handle(0, handled), Record(0, recorded))
  }

  class Store {
    var copies: nat
    var receipt: bool

    function Now(): Replica
      reads this
    {
      Replica(copies, receipt)
    }

    /** A replicated write: the duplicate check before anything else, then the budget, then the handler,
        then the receipt. A receipt that cannot be recorded is only logged: the answer stands. */
    method CheckStorage(room: bool, handled: Handled, recorded: bool) returns (ack: bool)
      modifies this
      ensures Now() == Attempted(old(Now()), room, handled, recorded).replicas[0]
      ensures ack <==> Attempted(old(Now()), room, handled, recorded).attempts == [Attempt(0, Answered(true))]
      ensures ack <==> old(receipt) || (room && handled == Done)
      ensures copies == old(copies) + if !old(receipt) && room && handled != Failed then 1 else 0
      ensures receipt <==> old(receipt) || (room && handled == Done && recorded)
    {
      if receipt { return true; }
      if !room { return false; }
      if handled == Failed { return false; }
      copies := copies + 1;
      if handled == Partly { return false; }
      if recorded { receipt := true; }
      return true;
    }
  }

  // ------------------------------------------------------------------ the router's answer

  /** The replicas among the first k whose attempt was acknowledged and heard. */
  function Acked(heard: seq<bool>, k: nat): nat
    requires k <= |heard|
  {
    if k == 0 then 0 else Acked(heard, k - 1) + if heard[k - 1] then 1 else 0
  }

  /** Enough acknowledgements were heard: some one, more than half, or every one of them. */
  ghost predicate Enough(heard: seq<bool>, level: Level) {
    match level
    case One => exists r :: 0 <= r < |heard| && heard[r]
    case Quorum => 2 * |HeardFrom(heard, |heard|)| > |heard|
    case All => forall r | 0 <= r < |heard| :: heard[r]
  }

  /** The count each level demands is reached exactly when enough replicas were heard. */
  lemma RequiredExactly(heard: seq<bool>, level: Level)
    ensures Acked(heard, |heard|) >= Required(level, |heard|) <==> Enough(heard, level)
  {
    var n := |heard|;
    var from := HeardFrom(heard, n);
    HeardCount(heard, n);
    match level {
      case One =>
        if r :| 0 <= r < n && heard[r] { assert r in from; }
        if from != {} {
          var r :| r in from;
          assert heard[r];
        }
      case Quorum =>
      case All =>
        if |from| >= n {
          FullSet(from, n);
          forall r: nat | r < n ensures heard[r] { assert r in from; }
        } else if forall r | 0 <= r < n :: heard[r] {
          FullHeard(heard, n);
        }
    }
  }

  lemma {:induction false} FullHeard(heard: seq<bool>, k: nat)
    requires k <= |heard| && forall r | 0 <= r < k :: heard[r]
    ensures Acked(heard, k) == k
  {
    if k > 0 { FullHeard(heard, k - 1); }
  }

  method CountAcks(heard: seq<bool>, level: Level) returns (ok: bool)
    ensures level == One ==> (ok <==> exists r :: 0 <= r < |heard| && heard[r])
    ensures level == Quorum ==> (ok <==> 2 * |set r: nat | r < |heard| && heard[r]| > |heard|)
    ensures level == All ==> (ok <==> forall r | 0 <= r < |heard| :: heard[r])
    ensures ok <==> Enough(heard, level)
  {
    var acked, i := 0, 0;
    while i < |heard|
      invariant 0 <= i <= |heard| && acked == Acked(heard, i)
    {
      if heard[i] { acked := acked + 1; }
      i := i + 1;
    }
    RequiredExactly(heard, level);
    return acked >= Required(level, |heard|);
  }

  ghost function Holders(s: State): set<nat> {
    set r: nat | r < |s.replicas| && s.replicas[r].copies >= 1
  }

  ghost function HeardFrom(heard: seq<bool>, k: nat): set<nat>
    requires k <= |heard|
  {
    set r: nat | r < k && heard[r]
  }

  lemma {:induction false} HeardCount(heard: seq<bool>, k: nat)
    requires k <= |heard|
    ensures |HeardFrom(heard, k)| == Acked(heard, k)
  {
    if k > 0 {
      HeardCount(heard, k - 1);
      if heard[k - 1] {
        assert HeardFrom(heard, k) == HeardFrom(heard, k - 1) + {k - 1};
      } else {
        assert HeardFrom(heard, k) == HeardFrom(heard, k - 1);
      }
    } else {
      assert HeardFrom(heard, k) == {};
    }
  }

  /** What the router heard is true: replica r is counted only when some attempt on it was acknowledged. */
  ghost predicate Heard(s: State, heard: seq<bool>) {
    |heard| == |s.replicas|
    && forall r: nat | r < |heard| && heard[r] :: exists a :: 0 <= a < |s.attempts| && s.attempts[a] == Attempt(r, Answered(true))
  }

  /** A 200 means the rows are held, after any run: by some replica at level one, by more than half of
      them at quorum, by every one at level all. */
  lemma SuccessIsHeld(n: nat, events: seq<Event>, heard: seq<bool>, level: Level)
    requires Heard(Exec(n, events), heard) && Enough(heard, level)
    ensures level == One ==> exists r: nat :: r < n && Exec(n, events).replicas[r].copies >= 1
    ensures level == Quorum ==> 2 * |Holders(Exec(n, events))| > n
    ensures level == All ==> forall r: nat | r < n :: Exec(n, events).replicas[r].copies >= 1
  {
    var s := Exec(n, events);
    EveryRunSound(n, events);
    forall r: nat | r < n && heard[r] ensures r in Holders(s) && s.replicas[r].copies >= 1 {
      var a :| 0 <= a < |s.attempts| && s.attempts[a] == Attempt(r, Answered(true));
    }
    assert HeardFrom(heard, n) <= Holders(s);
    SubsetCard(HeardFrom(heard, n), Holders(s));
    if level == One {
      var r :| 0 <= r < n && heard[r];
      assert s.replicas[r].copies >= 1;
    }
  }

  /** At any level a success on a shard that has replicas means some replica holds the rows. */
  lemma SuccessHasHolder(n: nat, events: seq<Event>, heard: seq<bool>, level: Level)
    requires n > 0 && Heard(Exec(n, events), heard) && Enough(heard, level)
    ensures exists r: nat :: r < n && Exec(n, events).replicas[r].copies >= 1
  {
    SuccessIsHeld(n, events, heard, level);
    match level {
      case One =>
      case Quorum =>
        assert Holders(Exec(n, events)) != {};
        var r :| r in Holders(Exec(n, events));
        assert Exec(n, events).replicas[r].copies >= 1;
      case All =>
        assert Exec(n, events).replicas[0].copies >= 1;
    }
  }

  lemma MajoritiesMeet(a: set<nat>, b: set<nat>, n: nat)
    requires (forall r | r in a + b :: r < n) && 2 * |a| > n && 2 * |b| > n
    ensures exists r :: r in a && r in b
  {
    BelowCard(a + b, n);
    assert |a| + |b| == |a + b| + |a * b|;
    assert a * b != {};
    var r :| r in a * b;
    assert r in a && r in b;
  }

  /** Two writes on one shard, each run and heard on its own and each answered at quorum, are both held
      by some replica. */
  lemma QuorumSuccessesShareReplica(n: nat, one: seq<Event>, heardOne: seq<bool>, two: seq<Event>, heardTwo: seq<bool>)
    requires Heard(Exec(n, one), heardOne) && Enough(heardOne, Quorum)
    requires Heard(Exec(n, two), heardTwo) && Enough(heardTwo, Quorum)
    ensures exists r: nat :: r < n && Exec(n, one).replicas[r].copies >= 1 && Exec(n, two).replicas[r].copies >= 1
  {
    SuccessIsHeld(n, one, heardOne, Quorum);
    SuccessIsHeld(n, two, heardTwo, Quorum);
    HoldersMeet(Exec(n, one), Exec(n, two), n);
  }

  lemma HoldersMeet(s: State, t: State, n: nat)
    requires |s.replicas| == |t.replicas| == n && 2 * |Holders(s)| > n && 2 * |Holders(t)| > n
    ensures exists r: nat :: r < n && s.replicas[r].copies >= 1 && t.replicas[r].copies >= 1
  {
    MajoritiesMeet(Holders(s), Holders(t), n);
    var r :| r in Holders(s) && r in Holders(t);
    assert r < n && s.replicas[r].copies >= 1 && t.replicas[r].copies >= 1;
  }

  // ------------------------------------------------------------------ no row twice

  predicate Active(p: Phase) {
    p.Checked? || p.Stored?
  }

  predicate Busy(s: State, r: nat) {
    exists a :: 0 <= a < |s.attempts| && s.attempts[a].replica == r && Active(s.attempts[a].phase)
  }

  /** Attempts on one replica do not overlap, handlers store all or nothing, receipts are recorded, and no
      crash falls between the rows and their receipt. */
  predicate Calm(s: State, e: Event) {
    match e
    case Check(a, _) => At(s, a, Sent) ==> !Busy(s, s.attempts[a].replica)
    case Handle(_, how) => how != Partly
    case Record(_, ok) => ok
    case Crash(r) => forall a | 0 <= a < |s.attempts| && s.attempts[a].replica == r :: s.attempts[a].phase != Stored
    case _ => true
  }

  predicate CalmRun(n: nat, events: seq<Event>) {
    forall i | 0 <= i < |events| :: Calm(Exec(n, events[..i]), events[i])
  }

  ghost predicate Single(s: State) {
    && (forall a | 0 <= a < |s.attempts| :: s.attempts[a].replica < |s.replicas|)
    && (forall a, b | 0 <= a < b < |s.attempts| && s.attempts[a].replica == s.attempts[b].replica ::
          !Active(s.attempts[a].phase) || !Active(s.attempts[b].phase))
    && (forall a | 0 <= a < |s.attempts| && s.attempts[a].phase == Checked ::
          s.replicas[s.attempts[a].replica].copies == 0)
    && (forall r | 0 <= r < |s.replicas| ::
          && s.replicas[r].copies <= 1
          && (s.replicas[r].copies == 1 && !s.replicas[r].receipt ==> StoredOn(s, r)))
  }

  ghost predicate StoredOn(s: State, r: nat) {
    exists a :: 0 <= a < |s.attempts| && s.attempts[a].replica == r && s.attempts[a].phase == Stored
  }

  lemma StoredKept(s: State, t: State, r: nat)
    requires StoredOn(s, r) && |s.attempts| <= |t.attempts|
    requires forall a | 0 <= a < |s.attempts| && s.attempts[a].replica == r && s.attempts[a].phase == Stored ::
               t.attempts[a] == s.attempts[a]
    ensures StoredOn(t, r)
  {
    var a :| 0 <= a < |s.attempts| && s.attempts[a].replica == r && s.attempts[a].phase == Stored;
    assert t.attempts[a].replica == r && t.attempts[a].phase == Stored;
  }

  lemma SendKeepsSingle(s: State, r: nat)
    requires Single(s)
    ensures Single(Next(s, Send(r)))
  {
    var t := Next(s, Send(r));
    forall q: nat | q < |t.replicas| && t.replicas[q].copies == 1 && !t.replicas[q].receipt ensures StoredOn(t, q) {
      StoredKept(s, t, q);
    }
  }

  /** A move that neither starts nor ends a stored phase, and starts a checked one only on a replica
      that is free and without copies. */
  lemma MoveKeepsSingle(s: State, a: nat, p: Phase)
    requires Single(s) && a < |s.attempts| && p != Stored && s.attempts[a].phase != Stored
    requires p == Checked ==> !Busy(s, s.attempts[a].replica) && s.replicas[s.attempts[a].replica].copies == 0
    ensures Single(Move(s, a, p))
  {
    var t := Move(s, a, p);
    forall q: nat | q < |t.replicas| && t.replicas[q].copies == 1 && !t.replicas[q].receipt ensures StoredOn(t, q) {
      StoredKept(s, t, q);
    }
  }

  lemma CheckKeepsSingle(s: State, e: Event)
    requires e.Check? && Single(s) && Calm(s, e)
    ensures Single(Next(s, e))
  {
    if At(s, e.a, Sent) {
      var r := s.attempts[e.a].replica;
      assert s.replicas[r].copies == 1 && !s.replicas[r].receipt ==> Busy(s, r);
      MoveKeepsSingle(s, e.a, if s.replicas[r].receipt then Answered(true) else if e.room then Checked else Answered(false));
    }
  }

  lemma HandleKeepsSingle(s: State, e: Event)
    requires e.Handle? && e.how != Partly && Single(s)
    ensures Single(Next(s, e))
  {
    if At(s, e.a, Checked) {
      if e.how == Done {
        var t := Next(s, e);
        forall q: nat | q < |t.replicas| && t.replicas[q].copies == 1 && !t.replicas[q].receipt ensures StoredOn(t, q) {
          if q == s.attempts[e.a].replica {
            assert t.attempts[e.a].phase == Stored && t.attempts[e.a].replica == q;
          } else {
            StoredKept(s, t, q);
          }
        }
      } else {
        MoveKeepsSingle(s, e.a, Answered(false));
      }
    }
  }

  lemma RecordKeepsSingle(s: State, e: Event)
    requires e.Record? && e.ok && Single(s)
    ensures Single(Next(s, e))
  {
    var t := Next(s, e);
    forall q: nat | q < |t.replicas| && t.replicas[q].copies == 1 && !t.replicas[q].receipt ensures StoredOn(t, q) {
      StoredKept(s, t, q);
    }
  }

  lemma CrashKeepsSingle(s: State, e: Event)
    requires e.Crash? && Single(s) && Calm(s, e)
    ensures Single(Next(s, e))
  {
    var t := Next(s, e);
    forall q: nat | q < |t.replicas| && t.replicas[q].copies == 1 && !t.replicas[q].receipt ensures StoredOn(t, q) {
      StoredKept(s, t, q);
    }
  }

  lemma CalmKeepsSingle(s: State, e: Event)
    requires Single(s) && Calm(s, e)
    ensures Single(Next(s, e))
  {
    match e {
      case Send(r) => SendKeepsSingle(s, r);
      case Check(_, _) => CheckKeepsSingle(s, e);
      case Handle(_, _) => HandleKeepsSingle(s, e);
      case Record(_, _) => RecordKeepsSingle(s, e);
      case Crash(_) => CrashKeepsSingle(s, e);
    }
  }

  /** In every calm run of sends, lost answers and retries no replica stores the rows twice. */
  lemma {:induction false} NoRowTwice(n: nat, events: seq<Event>)
    requires CalmRun(n, events)
    ensures Single(Exec(n, events))
    ensures forall r | 0 <= r < |Exec(n, events).replicas| :: Exec(n, events).replicas[r].copies <= 1
  {
    if events != [] {
      var k := |events| - 1;
      assert forall i | 0 <= i < k :: events[..k][..i] == events[..i];
      NoRowTwice(n, events[..k]);
      assert Calm(Exec(n, events[..k]), events[k]);
      CalmKeepsSingle(Exec(n, events[..k]), events[k]);
    }
  }

  // ------------------------------------------------------------------ runs from a state

  lemma ExecSnoc(n: nat, events: seq<Event>, e: Event)
    ensures Exec(n, events + [e]) == Next(Exec(n, events), e)
  {
    assert (events + [e])[..|events|] == events;
  }

  /** A replica reached by this run, as one attempt after another. */
  lemma {:induction false} ExecFrom(n: nat, a: seq<Event>, b: seq<Event>, s: State)
    requires s == Exec(n, a)
    ensures Exec(n, a + b) == ExecOn(s, b)
  {
    if b == [] {
      assert a + b == a;
    } else {
      var k := |b| - 1;
      ExecFrom(n, a, b[..k], s);
      assert a + b == a + b[..k] + [b[k]];
      ExecSnoc(n, a + b[..k], b[k]);
    }
  }

  function ExecOn(s: State, events: seq<Event>): (t: State)
    ensures |t.replicas| == |s.replicas|
  {
    if events == [] then s else Next(ExecOn(s, events[..|events| - 1]), events[|events| - 1])
  }

  function After(s: State, e1: Event, e2: Event, e3: Event): (t: State)
    ensures |t.replicas| == |s.replicas|
  {
    Next(Next(Next(s, e1), e2), e3)
  }

  lemma AfterIs(s: State, e1: Event, e2: Event, e3: Event)
    ensures ExecOn(s, [e1, e2, e3]) == After(s, e1, e2, e3)
  {
    assert [e1, e2, e3][..2] == [e1, e2] && [e1, e2][..1] == [e1] && [e1][..0] == [];
    assert ExecOn(s, []) == s;
    assert ExecOn(s, [e1]) == Next(s, e1);
    assert ExecOn(s, [e1, e2]) == Next(ExecOn(s, [e1]), e2);
  }

  // ------------------------------------------------------------------ exactly the states that stay single

  /** Two attempts that stored their rows on one replica left two copies there. */
  ghost predicate Counted(s: State) {
    forall a, b | 0 <= a < b < |s.attempts| && s.attempts[a].phase == Stored && s.attempts[b].phase == Stored
                  && s.attempts[a].replica == s.attempts[b].replica && s.attempts[a].replica < |s.replicas| ::
      s.replicas[s.attempts[a].replica].copies >= 2
  }

  lemma HandleCounted(s: State, e: Event)
    requires e.Handle? && Sound(s) && Counted(s)
    ensures Counted(Next(s, e))
  {
    var t := Next(s, e);
    forall a, b | 0 <= a < b < |t.attempts| && t.attempts[a].phase == Stored && t.attempts[b].phase == Stored
                  && t.attempts[a].replica == t.attempts[b].replica
      ensures t.replicas[t.attempts[a].replica].copies >= 2
    {
      if a != e.a && b != e.a { assert t.attempts[a] == s.attempts[a] && t.attempts[b] == s.attempts[b]; }
    }
  }

  lemma NextCounted(s: State, e: Event)
    requires Sound(s) && Counted(s)
    ensures Counted(Next(s, e))
  {
    if e.Handle? { HandleCounted(s, e); }
  }

  lemma {:induction false} EveryRunCounted(n: nat, events: seq<Event>)
    ensures Counted(Exec(n, events))
  {
    if events != [] {
      var k := |events| - 1;
      EveryRunCounted(n, events[..k]);
      EveryRunSound(n, events[..k]);
      NextCounted(Exec(n, events[..k]), events[k]);
    }
  }

  predicate AtMostOnce(s: State) {
    forall r | 0 <= r < |s.replicas| :: s.replicas[r].copies <= 1
  }

  ghost predicate CalmFrom(s: State, events: seq<Event>) {
    forall i | 0 <= i < |events| :: Calm(ExecOn(s, events[..i]), events[i])
  }

  lemma {:induction false} CalmStaysSingle(s: State, events: seq<Event>)
    requires Single(s) && CalmFrom(s, events)
    ensures Single(ExecOn(s, events))
  {
    if events != [] {
      var k := |events| - 1;
      assert forall i | 0 <= i < k :: events[..k][..i] == events[..i];
      CalmStaysSingle(s, events[..k]);
      assert Calm(ExecOn(s, events[..k]), events[k]);
      CalmKeepsSingle(ExecOn(s, events[..k]), events[k]);
    }
  }

  /** A checked attempt where a copy is already: handling it makes two. */
  lemma CheckedMakesTwo(s: State, a: nat)
    requires At(s, a, Checked) && s.replicas[s.attempts[a].replica].copies >= 1
    ensures CalmFrom(s, [Handle(a, Done)]) && !AtMostOnce(ExecOn(s, [Handle(a, Done)]))
  {
    assert [Handle(a, Done)][..0] == [];
    assert ExecOn(s, [Handle(a, Done)]) == Next(s, Handle(a, Done));
    assert Next(s, Handle(a, Done)).replicas[s.attempts[a].replica].copies >= 2;
  }

  lemma ExecTwo(s: State, e1: Event, e2: Event)
    ensures ExecOn(s, [e1, e2]) == Next(Next(s, e1), e2)
    ensures Calm(s, e1) && Calm(Next(s, e1), e2) ==> CalmFrom(s, [e1, e2])
  {
    assert [e1, e2][..1] == [e1] && [e1][..0] == [] && [e1, e2][..0] == [];
    assert ExecOn(s, [e1]) == Next(s, e1);
  }

  /** Two checked attempts on one replica: handling both makes two. */
  lemma TwoCheckedMakeTwo(s: State, a: nat, b: nat)
    requires a != b && At(s, a, Checked) && At(s, b, Checked) && s.attempts[a].replica == s.attempts[b].replica
    ensures CalmFrom(s, [Handle(a, Done), Handle(b, Done)]) && !AtMostOnce(ExecOn(s, [Handle(a, Done), Handle(b, Done)]))
  {
    var t := Next(s, Handle(a, Done));
    ExecTwo(s, Handle(a, Done), Handle(b, Done));
    assert At(t, b, Checked);
    assert Next(t, Handle(b, Done)).replicas[s.attempts[b].replica].copies >= 2;
  }

  lemma CalmThree(s: State, e1: Event, e2: Event, e3: Event)
    requires Calm(s, e1) && Calm(Next(s, e1), e2) && Calm(Next(Next(s, e1), e2), e3)
    ensures CalmFrom(s, [e1, e2, e3])
  {
    var es := [e1, e2, e3];
    assert es[..0] == [] && es[..1] == [e1] && es[..2] == [e1, e2] && [e1][..0] == [] && [e1, e2][..1] == [e1];
    assert ExecOn(s, es[..1]) == Next(s, e1);
    assert ExecOn(s, es[..2]) == Next(Next(s, e1), e2);
  }

  /** A copy without a receipt on a replica where nothing is under way: a fresh attempt makes two. */
  lemma UnrecordedMakesTwo(s: State, r: nat)
    requires r < |s.replicas| && s.replicas[r].copies >= 1 && !s.replicas[r].receipt && !Busy(s, r)
    ensures var a := |s.attempts|;
            var es := [Send(r), Check(a, true), Handle(a, Done)];
            CalmFrom(s, es) && !AtMostOnce(ExecOn(s, es))
  {
    var a := |s.attempts|;
    var s1 := Next(s, Send(r));
    assert s1.attempts[a] == Attempt(r, Sent) && forall i | 0 <= i < a :: s1.attempts[i] == s.attempts[i];
    assert !Busy(s1, r);
    var s2 := Next(s1, Check(a, true));
    assert At(s2, a, Checked) && s2.replicas == s.replicas;
    CalmThree(s, Send(r), Check(a, true), Handle(a, Done));
    AfterIs(s, Send(r), Check(a, true), Handle(a, Done));
    assert Next(s2, Handle(a, Done)).replicas[r].copies >= 2;
  }

  ghost predicate StaysAtMostOnce(s: State) {
    forall events | CalmFrom(s, events) :: AtMostOnce(ExecOn(s, events))
  }

  /** One attempt that is active beside another on its replica, whichever of them stored its rows. */
  lemma TwoActiveMakeTwo(s: State, a: nat, b: nat)
    requires Sound(s) && Counted(s) && a < b < |s.attempts| && s.attempts[a].replica == s.attempts[b].replica
    requires Active(s.attempts[a].phase) && Active(s.attempts[b].phase)
    ensures !StaysAtMostOnce(s)
  {
    if s.attempts[a].phase == Checked && s.attempts[b].phase == Checked {
      TwoCheckedMakeTwo(s, a, b);
    } else if s.attempts[a].phase == Checked {
      CheckedMakesTwo(s, a);
    } else if s.attempts[b].phase == Checked {
      CheckedMakesTwo(s, b);
    } else {
      assert CalmFrom(s, []) && ExecOn(s, []) == s;
    }
  }

  lemma NotSingleMakesTwo(s: State)
    requires Sound(s) && Counted(s) && !Single(s)
    ensures !StaysAtMostOnce(s)
  {
    assert CalmFrom(s, []) && ExecOn(s, []) == s;
    if AtMostOnce(s) {
      if a, b :| 0 <= a < b < |s.attempts| && s.attempts[a].replica == s.attempts[b].replica
                 && Active(s.attempts[a].phase) && Active(s.attempts[b].phase) {
        TwoActiveMakeTwo(s, a, b);
      } else if a :| 0 <= a < |s.attempts| && s.attempts[a].phase == Checked && s.replicas[s.attempts[a].replica].copies >= 1 {
        CheckedMakesTwo(s, a);
      } else {
        var r :| 0 <= r < |s.replicas| && s.replicas[r].copies == 1 && !s.replicas[r].receipt && !StoredOn(s, r);
        assert !Busy(s, r);
        UnrecordedMakesTwo(s, r);
      }
    }
  }

  /** In whatever state a run has reached, calm or not: every calm continuation keeps the row at one copy
      or fewer on each replica exactly when the state is single. */
  lemma StaysSingleExactly(n: nat, events: seq<Event>)
    ensures StaysAtMostOnce(Exec(n, events)) <==> Single(Exec(n, events))
  {
    var s := Exec(n, events);
    EveryRunSound(n, events);
    EveryRunCounted(n, events);
    if Single(s) {
      forall more | CalmFrom(s, more) ensures AtMostOnce(ExecOn(s, more)) { CalmStaysSingle(s, more); }
    } else {
      NotSingleMakesTwo(s);
    }
  }

  // ------------------------------------------------------------------ each condition is needed

  /** A first attempt on an only replica, up to where its handler ran to the end or part of the way. */
  function Begun(how: Handled): seq<Event> {
    [Send(0), Check(0, true), Handle(0, how)]
  }

  lemma BegunIs(how: Handled)
    requires how != Failed
    ensures Exec(1, Begun(how)) == State([Replica(1, false)], [Attempt(0, if how == Done then Stored else Answered(false))])
  {
    var s := Start(1);
    assert s.replicas == [Replica(0, false)];
    ExecFrom(1, [], Begun(how), s);
    assert [] + Begun(how) == Begun(how);
    AfterIs(s, Send(0), Check(0, true), Handle(0, how));
    assert s.attempts + [Attempt(0, Sent)] == [Attempt(0, Sent)];
  }

  lemma PartlyIsNotSingle()
    ensures !Single(Exec(1, Begun(Partly)))
  {
    BegunIs(Partly);
    LeftUnrecorded(Exec(1, Begun(Partly)));
  }

  lemma UnrecordedIsNotSingle(e: Event)
    requires e == Record(0, false) || e == Crash(0)
    ensures !Single(Exec(1, Begun(Done) + [e]))
  {
    BegunIs(Done);
    ExecSnoc(1, Begun(Done), e);
    LeftUnrecorded(Exec(1, Begun(Done) + [e]));
  }

  lemma OverlapIsNotSingle()
    ensures !Single(Exec(1, Begun(Done) + [Send(0)] + [Check(1, true)]))
  {
    BegunIs(Done);
    ExecSnoc(1, Begun(Done), Send(0));
    ExecSnoc(1, Begun(Done) + [Send(0)], Check(1, true));
    CheckedTwice(Exec(1, Begun(Done) + [Send(0)] + [Check(1, true)]));
  }

  /** A handler that stored part and failed, a receipt that could not be recorded, a crash before it, or a
      retry checked while it was under way: each leaves a state that is not single, so one from which
      calm steps alone store the row twice. */
  lemma EachConditionIsNeeded(e: Event)
    requires e == Record(0, false) || e == Crash(0)
    ensures !StaysAtMostOnce(Exec(1, Begun(Partly)))
    ensures !StaysAtMostOnce(Exec(1, Begun(Done) + [e]))
    ensures !StaysAtMostOnce(Exec(1, Begun(Done) + [Send(0)] + [Check(1, true)]))
  {
    PartlyIsNotSingle();
    StaysSingleExactly(1, Begun(Partly));
    UnrecordedIsNotSingle(e);
    StaysSingleExactly(1, Begun(Done) + [e]);
    OverlapIsNotSingle();
    StaysSingleExactly(1, Begun(Done) + [Send(0)] + [Check(1, true)]);
  }

  lemma LeftUnrecorded(s: State)
    requires s.replicas == [Replica(1, false)] && |s.attempts| == 1 && s.attempts[0].phase != Stored
    ensures !Single(s)
  {
    assert s.replicas[0].copies == 1 && !StoredOn(s, 0);
  }

  lemma CheckedTwice(s: State)
    requires |s.attempts| == 2 && s.attempts[0] == Attempt(0, Stored) && s.attempts[1] == Attempt(0, Checked)
    ensures !Single(s)
  {
    assert Active(s.attempts[0].phase) && Active(s.attempts[1].phase);
  }
}
