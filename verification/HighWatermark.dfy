/** The compare-and-swap loop behind a node's watermark, and what it gives the router.

Any number of requests run the loop at once. Each scans the open tenants for a maximum, then
loads the node's own mark and either answers with it or tries to raise it. */
module HighWatermark {
  import W = Watermark

  /** Where one call of the loop stands. */
  datatype Call = Trying(hw: int) | Loaded(hw: int, prev: int) | Answered(hw: int, result: int)

  /** own is the shared mark; issued lists the answers in the order they took effect. */
  datatype Node = Node(own: int, calls: map<nat, Call>, issued: seq<int>)

  datatype Action = Begin(id: nat, scanned: int) | Load(id: nat) | Swap(id: nat)

  function Fresh(): Node {
    Node(0, map[], [])
  }

  /** One atomic step. An action its call is not ready for does nothing. */
  function Step(n: Node, a: Action): Node {
    match a
    case Begin(id, scanned) =>
      if id in n.calls then n
      else n.(calls := n.calls[id := Trying(if scanned > 0 then scanned else 0)])
    case Load(id) =>
      if id in n.calls && n.calls[id].Trying? then
        var hw := n.calls[id].hw;
        if hw <= n.own then Node(n.own, n.calls[id := Answered(hw, n.own)], n.issued + [n.own])
        else n.(calls := n.calls[id := Loaded(hw, n.own)])
      else n
    case Swap(id) =>
      if id in n.calls && n.calls[id].Loaded? then
        var hw := n.calls[id].hw;
        if n.own == n.calls[id].prev then Node(hw, n.calls[id := Answered(hw, hw)], n.issued + [hw])
        else n.(calls := n.calls[id := Trying(hw)])
      else n
  }

  function Run(as_: seq<Action>): Node {
    if as_ == [] then Fresh() else Step(Run(as_[..|as_| - 1]), as_[|as_| - 1])
  }

  ghost predicate NonDecreasing(s: seq<int>) {
    forall i, j | 0 <= i < j < |s| :: s[i] <= s[j]
  }

  ghost predicate Inv(n: Node) {
    && n.own >= 0
    && NonDecreasing(n.issued)
    && (forall x | x in n.issued :: x <= n.own)
    && (forall id | id in n.calls && n.calls[id].Loaded? :: n.calls[id].prev < n.calls[id].hw)
    && (forall id | id in n.calls && n.calls[id].Answered? ::
          n.calls[id].hw <= n.calls[id].result && n.calls[id].result in n.issued)
  }

  lemma StepKeeps(n: Node, a: Action)
    requires Inv(n)
    ensures Inv(Step(n, a)) && n.own <= Step(n, a).own && n.issued <= Step(n, a).issued
  {
    var n' := Step(n, a);
    if n'.issued != n.issued {
      var x := n'.issued[|n.issued|];
      assert n'.issued == n.issued + [x];
      forall i, j | 0 <= i < j < |n'.issued| ensures n'.issued[i] <= n'.issued[j] {
        assert n'.issued[i] in n.issued;
      }
      forall id | id in n'.calls && n'.calls[id].Answered?
        ensures n'.calls[id].hw <= n'.calls[id].result && n'.calls[id].result in n'.issued
      {
        assert x in n'.issued;
      }
    }
  }

  /** In every interleaving of any number of callers the answers never fall, and no caller is told
      less than it saw itself. */
  lemma {:induction false} AnswersNeverFall(as_: seq<Action>)
    ensures Inv(Run(as_))
  {
    if as_ != [] {
      AnswersNeverFall(as_[..|as_| - 1]);
      StepKeeps(Run(as_[..|as_| - 1]), as_[|as_| - 1]);
    }
  }

  /** A shorter run's answers are a prefix of the longer run's. */
  lemma {:induction false} AnswersExtend(as_: seq<Action>, n: nat)
    requires n <= |as_|
    ensures Run(as_[..n]).issued <= Run(as_).issued && Run(as_[..n]).own <= Run(as_).own
  {
    if n < |as_| {
      var m := |as_| - 1;
      assert as_[..m][..n] == as_[..n];
      AnswersExtend(as_[..m], n);
      AnswersNeverFall(as_[..m]);
      StepKeeps(Run(as_[..m]), as_[m]);
    } else {
      assert as_[..n] == as_;
    }
  }

  /** What a call was begun with: the maximum some tenant scan found, or zero. */
  ghost predicate Scanned(as_: seq<Action>, x: int) {
    x == 0 || exists i :: 0 <= i < |as_| && as_[i].Begin? && as_[i].scanned == x
  }

  ghost predicate FromScans(as_: seq<Action>) {
    var n := Run(as_);
    && Scanned(as_, n.own) && (forall x | x in n.issued :: Scanned(as_, x))
    && forall id | id in n.calls :: Scanned(as_, n.calls[id].hw)
  }

  /** The mark and every answer are maxima some scan found: nothing is answered that no tenant held. */
  lemma {:induction false} AnswersAreSeen(as_: seq<Action>)
    ensures FromScans(as_)
  {
    if as_ != [] {
      var m := |as_| - 1;
      AnswersAreSeen(as_[..m]);
      forall x | Scanned(as_[..m], x) ensures Scanned(as_, x) {
        if i :| 0 <= i < m && as_[..m][i].Begin? && as_[..m][i].scanned == x {
          assert as_[i].Begin? && as_[i].scanned == x;
        }
      }
      var a := as_[m];
      if a.Begin? { assert Scanned(as_, a.scanned); }
    }
  }

  /** The router heard from real processes: each named process ran the loop in some interleaving,
      and its reports arrive in the order it issued them. */
  ghost predicate Issued(run: seq<W.Report>, trace: (string, string) -> seq<Action>, at: nat -> nat) {
    && (forall i: nat | i < |run| ::
          var log := Run(trace(run[i].peer, run[i].gen)).issued;
          at(i) < |log| && run[i].hw == log[at(i)])
    && (forall i: nat, j: nat | i < j < |run| && run[i].peer == run[j].peer && run[i].gen == run[j].gen ::
          at(i) <= at(j))
  }

  /** End to end: whatever the callers' interleaving on every node, a router that sees each
      process's answers in order never refuses a read. */
  lemma HonestNodesAreNeverRefused(run: seq<W.Report>, trace: (string, string) -> seq<Action>, at: nat -> nat,
                                   i: nat)
    requires Issued(run, trace, at) && W.AllNamed(run) && i < |run|
    ensures !W.Refused(W.VerdictAt(run, i))
  {
    forall a: nat, b: nat | a < b < |run| && run[a].peer == run[b].peer && run[a].gen == run[b].gen
      ensures run[a].hw <= run[b].hw
    {
      AnswersNeverFall(trace(run[a].peer, run[a].gen));
      var log := Run(trace(run[a].peer, run[a].gen)).issued;
      assert at(a) <= at(b);
      assert log[at(a)] <= log[at(b)];
    }
    W.NeverRefusedInVain(run, i);
  }
}
