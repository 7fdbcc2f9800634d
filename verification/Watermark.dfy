/** Watermark reports: what a router remembers of each replica, and when that is evidence of loss.

A report is one peer's answer: its URL, the generation of the process that made it ("" from a
build without the header), its watermark, and the shard's member list at that moment. */
module Watermark {

  datatype Mark = Mark(hw: int, floor: int, gen: string)

  datatype Report = Report(peer: string, gen: string, hw: int, members: seq<string>)

  datatype Verdict = Verdict(behind: bool, prev: int, certain: bool)

  /** Two consecutive reports of one URL share a floor when they name the same process, or when
      either does not say. */
  predicate Linked(older: string, newer: string) {
    older == newer || older == "" || newer == ""
  }

  function NewMark(marks: map<string, Mark>, r: Report): Mark {
    if r.peer in marks && Linked(marks[r.peer].gen, r.gen) && marks[r.peer].floor >= r.hw
    then Mark(r.hw, marks[r.peer].floor, r.gen)
    else Mark(r.hw, r.hw, r.gen)
  }

  /** A peer is remembered while it is a member, or while no member list is known. */
  predicate Keeps(r: Report, u: string) {
    u == r.peer || r.members == [] || u in r.members
  }

  function NewMarks(marks: map<string, Mark>, r: Report): map<string, Mark> {
    map u | u in marks.Keys + {r.peer} && Keeps(r, u) ::
      if u == r.peer then NewMark(marks, r) else marks[u]
  }

  function Sibling(marks: map<string, Mark>, r: Report, n: nat): Verdict
    requires n <= |r.members|
    decreases |r.members| - n
  {
    if n == |r.members| then Verdict(false, 0, r.gen != "")
    else
      var m := r.members[n];
      if m != r.peer && m in marks && marks[m].hw > r.hw then Verdict(true, marks[m].hw, false)
      else Sibling(marks, r, n + 1)
  }

  function Decide(marks: map<string, Mark>, r: Report): Verdict {
    if r.peer in marks && r.hw < marks[r.peer].floor then
      var old_ := marks[r.peer];
      if r.gen == "" || old_.gen == "" then Verdict(true, old_.floor, false)
      else Verdict(r.gen == old_.gen, old_.floor, true)
    else Sibling(NewMarks(marks, r), r, 0)
  }

  /** The only answer that refuses a read. */
  predicate Refused(v: Verdict) {
    v.behind && v.certain
  }

  /** What the router has heard from each replica of one shard. */
  class ShardHigh {
    var marks: map<string, Mark>

    constructor ()
      ensures marks == map[]
    {
      marks := map[];
    }

    /** Drop every remembered peer the topology no longer lists. */
    static method Forget(marks0: map<string, Mark>, peer: string, members: seq<string>)
      returns (marks: map<string, Mark>)
      ensures marks == map u | u in marks0 && (u == peer || u in members) :: marks0[u]
    {
      marks := marks0;
      var todo := marks.Keys;
      while todo != {}
        invariant todo <= marks0.Keys
        invariant forall u :: u in marks <==> u in marks0 && (u in todo || u == peer || u in members)
        invariant forall u | u in marks :: marks[u] == marks0[u]
        decreases todo
      {
        var u :| u in todo;
        todo := todo - {u};
        if u == peer { continue; }
        var live := false;
        for k := 0 to |members|
          invariant live <==> u in members[..k]
        {
          if members[k] == u { live := true; }
        }
        assert members[..|members|] == members;
        if !live { marks := marks - {u}; }
      }
    }

    method Observe(peer: string, gen: string, hw: int, members: seq<string>)
      returns (behind: bool, prev: int, certain: bool)
      modifies this
      ensures var r := Report(peer, gen, hw, members);
              && marks == NewMarks(old(marks), r)
              && Verdict(behind, prev, certain) == Decide(old(marks), r)
    {
      ghost var r := Report(peer, gen, hw, members);
      ghost var marks0 := marks;
      var seen := peer in marks;
      var was := if seen then marks[peer] else Mark(0, 0, "");
      var sameProcess := seen && gen != "" && was.gen != "" && gen == was.gen;
      var unknownProcess := seen && (gen == "" || was.gen == "");
      var mk := Mark(hw, hw, gen);
      if sameProcess || unknownProcess {
        mk := mk.(floor := was.floor);
        if hw > mk.floor { mk := mk.(floor := hw); }
      }
      marks := marks[peer := mk];
      if |members| > 0 {
        marks := Forget(marks, peer, members);
      }
      assert marks == NewMarks(marks0, r);
      if seen && hw < was.floor {
        if sameProcess { return true, was.floor, true; }
        if unknownProcess { return true, was.floor, false; }
        return false, was.floor, true;
      }
      for n := 0 to |members|
        invariant Decide(marks0, r) == Sibling(marks, r, n)
      {
        var m := members[n];
        if m == peer { continue; }
        if m in marks && marks[m].hw > hw { return true, marks[m].hw, false; }
      }
      return false, 0, gen != "";
    }
  }

  // ------------------------------------------------------------------ whole runs

  function After(run: seq<Report>): map<string, Mark> {
    if run == [] then map[] else NewMarks(After(run[..|run| - 1]), run[|run| - 1])
  }

  /** The verdict on report i of a run. */
  function VerdictAt(run: seq<Report>, i: nat): Verdict
    requires i < |run|
  {
    Decide(After(run[..i]), run[i])
  }

  /** Report j of this peer still counts towards its floor when n reports have been seen: the
      peer was never dropped since, and each later report of it links to the one before. */
  ghost predicate Counts(run: seq<Report>, n: nat, peer: string, j: nat)
    requires n <= |run|
    decreases n
  {
    && j < n
    && (if j == n - 1 then run[j].peer == peer
        else
          && Counts(run, n - 1, peer, j)
          && Keeps(run[n - 1], peer)
          && (run[n - 1].peer == peer ==>
                peer in After(run[..n - 1]) && Linked(After(run[..n - 1])[peer].gen, run[n - 1].gen)))
  }

  lemma CountsStep(run: seq<Report>, n: nat, peer: string, j: nat)
    requires 0 < n <= |run| && j < n - 1
    ensures Counts(run, n, peer, j) <==>
            && Counts(run, n - 1, peer, j) && Keeps(run[n - 1], peer)
            && (run[n - 1].peer == peer ==>
                  peer in After(run[..n - 1]) && Linked(After(run[..n - 1])[peer].gen, run[n - 1].gen))
  {
  }

  ghost predicate FloorRight(run: seq<Report>, n: nat, peer: string)
    requires n <= |run|
  {
    var marks := After(run[..n]);
    if peer in marks then
      && (exists j: nat :: Counts(run, n, peer, j) && run[j].hw == marks[peer].floor)
      && (forall j: nat | Counts(run, n, peer, j) :: run[j].hw <= marks[peer].floor)
    else forall j: nat :: !Counts(run, n, peer, j)
  }

  /** The floor held for a peer is the highest watermark among the reports that still count:
      no more, and no less; a peer is remembered exactly while some report of it counts. */
  lemma {:induction false} FloorIsTenureMax(run: seq<Report>, n: nat, peer: string)
    requires n <= |run|
    ensures FloorRight(run, n, peer)
  {
    if n > 0 {
      FloorIsTenureMax(run, n - 1, peer);
      assert run[..n][..n - 1] == run[..n - 1];
      forall j: nat | j < n - 1
        ensures Counts(run, n, peer, j) <==>
            && Counts(run, n - 1, peer, j) && Keeps(run[n - 1], peer)
            && (run[n - 1].peer == peer ==>
                  peer in After(run[..n - 1]) && Linked(After(run[..n - 1])[peer].gen, run[n - 1].gen))
      {
        CountsStep(run, n, peer, j);
      }
      if run[n - 1].peer == peer { FloorOwn(run, n, peer); } else { FloorOther(run, n, peer); }
    }
  }

  ghost predicate StepsRight(run: seq<Report>, n: nat, peer: string)
    requires 0 < n <= |run|
  {
    forall j: nat | j < n - 1 ::
      Counts(run, n, peer, j) <==>
        && Counts(run, n - 1, peer, j) && Keeps(run[n - 1], peer)
        && (run[n - 1].peer == peer ==>
              peer in After(run[..n - 1]) && Linked(After(run[..n - 1])[peer].gen, run[n - 1].gen))
  }

  lemma FloorOther(run: seq<Report>, n: nat, peer: string)
    requires 0 < n <= |run| && run[n - 1].peer != peer && FloorRight(run, n - 1, peer) && StepsRight(run, n, peer)
    ensures FloorRight(run, n, peer)
  {
    assert run[..n][..n - 1] == run[..n - 1];
    var before := After(run[..n - 1]);
    assert !Counts(run, n, peer, n - 1);
    if peer in After(run[..n]) {
      var k: nat :| Counts(run, n - 1, peer, k) && run[k].hw == before[peer].floor;
      assert Counts(run, n, peer, k);
    }
  }

  lemma FloorOwn(run: seq<Report>, n: nat, peer: string)
    requires 0 < n <= |run| && run[n - 1].peer == peer && FloorRight(run, n - 1, peer) && StepsRight(run, n, peer)
    ensures FloorRight(run, n, peer)
  {
    assert run[..n][..n - 1] == run[..n - 1];
    var r, before := run[n - 1], After(run[..n - 1]);
    var last: nat := n - 1;
    assert Counts(run, n, peer, last);
    assert peer in After(run[..n]) && After(run[..n])[peer] == NewMark(before, r);
    if peer in before && Linked(before[peer].gen, r.gen) {
      var k: nat :| Counts(run, n - 1, peer, k) && run[k].hw == before[peer].floor;
      assert Counts(run, n, peer, k);
    }
  }

  /** When a report is refused, exactly: the peer is remembered under the same named process, and
      some report that still counts was higher. */
  lemma RefusedExactly(run: seq<Report>, i: nat)
    requires i < |run|
    ensures Refused(VerdictAt(run, i)) <==>
            && run[i].gen != "" && run[i].peer in After(run[..i]) && After(run[..i])[run[i].peer].gen == run[i].gen
            && exists j: nat :: Counts(run, i, run[i].peer, j) && run[j].hw > run[i].hw
  {
    FloorIsTenureMax(run, i, run[i].peer);
    assert FloorRight(run, i, run[i].peer);
    SiblingNeverRefuses(NewMarks(After(run[..i]), run[i]), run[i], 0);
  }

  lemma {:induction false} SiblingNeverRefuses(marks: map<string, Mark>, r: Report, n: nat)
    requires n <= |r.members|
    ensures !Refused(Sibling(marks, r, n))
    decreases |r.members| - n
  {
    if n < |r.members| { SiblingNeverRefuses(marks, r, n + 1); }
  }

  ghost predicate AllNamed(run: seq<Report>) {
    forall i | 0 <= i < |run| :: run[i].gen != ""
  }

  /** What a process guarantees about its own reports: its watermark is a running maximum. */
  ghost predicate Monotone(run: seq<Report>) {
    forall i, j | 0 <= i < j < |run| && run[i].peer == run[j].peer && run[i].gen == run[j].gen ::
      run[i].hw <= run[j].hw
  }

  lemma {:induction false} NamedTenure(run: seq<Report>, n: nat, peer: string, j: nat)
    requires n <= |run| && AllNamed(run) && Counts(run, n, peer, j)
    ensures run[j].peer == peer && peer in After(run[..n]) && After(run[..n])[peer].gen == run[j].gen
  {
    assert run[..n][..n - 1] == run[..n - 1];
    if j < n - 1 { NamedTenure(run, n - 1, peer, j); }
  }

  /** No false alarm: over any run in which every report names a generation and each process's
      watermark never falls, no read is ever refused, through restarts, departures and returns. */
  lemma NeverRefusedInVain(run: seq<Report>, i: nat)
    requires i < |run| && AllNamed(run) && Monotone(run)
    ensures !Refused(VerdictAt(run, i))
  {
    RefusedExactly(run, i);
    forall j: nat | Counts(run, i, run[i].peer, j) ensures run[j].hw <= run[i].hw || run[j].gen != run[i].gen {
      NamedTenure(run, i, run[i].peer, j);
    }
    if j: nat :| Counts(run, i, run[i].peer, j) && run[j].hw > run[i].hw {
      NamedTenure(run, i, run[i].peer, j);
    }
  }

  /** Between j and i the peer stays a member and every report of it names the same process. */
  ghost predicate SameProcess(run: seq<Report>, j: nat, i: nat)
    requires j < i < |run|
  {
    forall k | j < k < i ::
      Keeps(run[k], run[j].peer) && (run[k].peer == run[j].peer ==> run[k].gen == run[j].gen)
  }

  lemma {:induction false} TenureHolds(run: seq<Report>, j: nat, i: nat)
    requires j < i < |run| && run[j].gen != "" && SameProcess(run, j, i)
    ensures Counts(run, i, run[j].peer, j)
    ensures run[j].peer in After(run[..i]) && After(run[..i])[run[j].peer].gen == run[j].gen
  {
    assert run[..i][..i - 1] == run[..i - 1];
    if j < i - 1 { TenureHolds(run, j, i - 1); }
  }

  /** No alarm silenced: once a process has reported hw, every lower report it makes in that
      generation is refused, however often it repeats, while the peer stays a member. */
  lemma EveryFallRefused(run: seq<Report>, j: nat, i: nat)
    requires j < i < |run| && SameProcess(run, j, i)
    requires run[i].peer == run[j].peer && run[i].gen == run[j].gen != "" && run[i].hw < run[j].hw
    ensures Refused(VerdictAt(run, i))
  {
    TenureHolds(run, j, i);
    RefusedExactly(run, i);
  }

  /** A URL that moves from a build without generations to one with them carries the old floor
      across. The first named report is only reported; the second is refused although its process
      never fell. */
  lemma UpgradeCarriesFloor(peer: string, gen: string, high: int, low: int)
    requires gen != "" && low < high
    ensures
      var run := [Report(peer, "", high, []), Report(peer, gen, low, []), Report(peer, gen, low, [])];
      Monotone(run) && !Refused(VerdictAt(run, 1)) && Refused(VerdictAt(run, 2))
  {
    var run := [Report(peer, "", high, []), Report(peer, gen, low, []), Report(peer, gen, low, [])];
    assert run[..1] == [run[0]] && run[..1][..0] == [];
    assert run[..2][..1] == [run[0]];
    assert After(run[..1]) == map[peer := Mark(high, high, "")];
    assert After(run[..2]) == map[peer := Mark(low, high, gen)];
  }

  /** Over honest processes a refusal needs a report without a generation in the tenure that
      still counts: the floor was inherited from it or from the process before it. */
  lemma HonestRefusalNeedsUnnamed(run: seq<Report>, i: nat)
    requires i < |run| && Monotone(run) && Refused(VerdictAt(run, i))
    ensures exists k: nat :: Counts(run, i, run[i].peer, k) && run[k].gen == ""
  {
    RefusedExactly(run, i);
    var j: nat :| Counts(run, i, run[i].peer, j) && run[j].hw > run[i].hw;
    CountsPeer(run, i, run[i].peer, j);
    GenerationChanges(run, i, run[i].peer, j);
  }

  /** Within a tenure the generation can only change through a report that names none. */
  lemma {:induction false} GenerationChanges(run: seq<Report>, n: nat, peer: string, j: nat)
    requires n <= |run| && Counts(run, n, peer, j)
    ensures peer in After(run[..n])
    ensures After(run[..n])[peer].gen == run[j].gen ||
            exists k: nat :: Counts(run, n, peer, k) && run[k].gen == ""
  {
    assert run[..n][..n - 1] == run[..n - 1];
    if j < n - 1 {
      GenerationChanges(run, n - 1, peer, j);
      if k: nat :| Counts(run, n - 1, peer, k) && run[k].gen == "" {
        assert Counts(run, n, peer, k);
      } else if run[n - 1].peer == peer && run[n - 1].gen == "" {
        assert Counts(run, n, peer, n - 1);
      }
    }
  }

  lemma {:induction false} CountsPeer(run: seq<Report>, n: nat, peer: string, j: nat)
    requires n <= |run| && Counts(run, n, peer, j)
    ensures run[j].peer == peer
  {
    if j < n - 1 { CountsPeer(run, n - 1, peer, j); }
  }

  // ------------------------------------------------------------------ what is remembered, and what lags

  /** Report j is the latest this peer made among the first n, and no member list since left it out. */
  ghost predicate Latest(run: seq<Report>, n: nat, peer: string, j: nat)
    requires n <= |run|
  {
    && j < n && run[j].peer == peer
    && forall k | j < k < n :: run[k].peer != peer && (run[k].members == [] || peer in run[k].members)
  }

  ghost predicate HeldRight(run: seq<Report>, n: nat, peer: string)
    requires n <= |run|
  {
    var marks := After(run[..n]);
    && (peer in marks <==> exists j: nat :: Latest(run, n, peer, j))
    && forall j: nat | Latest(run, n, peer, j) :: peer in marks && marks[peer].hw == run[j].hw && marks[peer].gen == run[j].gen
  }

  /** What is held for a peer is its latest report, for as long as it stays listed. */
  lemma {:induction false} HeldIsLatest(run: seq<Report>, n: nat, peer: string)
    requires n <= |run|
    ensures HeldRight(run, n, peer)
  {
    if n > 0 {
      HeldIsLatest(run, n - 1, peer);
      HeldStep(run, n, peer);
    }
  }

  lemma HeldStep(run: seq<Report>, n: nat, peer: string)
    requires 0 < n <= |run| && HeldRight(run, n - 1, peer)
    ensures HeldRight(run, n, peer)
  {
    var r, before, marks := run[n - 1], After(run[..n - 1]), After(run[..n]);
    assert run[..n][..n - 1] == run[..n - 1];
    assert marks == NewMarks(before, r);
    forall j: nat ensures Latest(run, n, peer, j) <==>
        if r.peer == peer then j == n - 1 else Latest(run, n - 1, peer, j) && (r.members == [] || peer in r.members)
    {
      LatestStep(run, n, peer, j);
    }
    if r.peer == peer {
      assert Latest(run, n, peer, n - 1);
    } else if peer in marks {
      var j: nat :| Latest(run, n - 1, peer, j);
      assert Latest(run, n, peer, j);
    }
  }

  lemma LatestStep(run: seq<Report>, n: nat, peer: string, j: nat)
    requires 0 < n <= |run|
    ensures Latest(run, n, peer, j) <==>
            if run[n - 1].peer == peer then j == n - 1
            else Latest(run, n - 1, peer, j) && (run[n - 1].members == [] || peer in run[n - 1].members)
  {
    if run[n - 1].peer != peer && Latest(run, n - 1, peer, j) && (run[n - 1].members == [] || peer in run[n - 1].members) {
      forall k | j < k < n ensures run[k].peer != peer && (run[k].members == [] || peer in run[k].members) {
        if k < n - 1 { assert run[k].peer != peer; }
      }
    }
  }

  /** Member n of report i's list is another peer whose latest report, still remembered, is higher. */
  ghost predicate Ahead(run: seq<Report>, i: nat, n: nat)
    requires i < |run|
  {
    && n < |run[i].members| && run[i].members[n] != run[i].peer
    && exists j: nat :: Latest(run, i, run[i].members[n], j) && run[j].hw > run[i].hw
  }

  /** Some report of this peer that still counts was higher than report i. */
  ghost predicate BelowOwn(run: seq<Report>, i: nat)
    requires i < |run|
  {
    exists j: nat :: Counts(run, i, run[i].peer, j) && run[j].hw > run[i].hw
  }

  lemma AheadMark(run: seq<Report>, i: nat, n: nat)
    requires i < |run| && n < |run[i].members|
    ensures var m, marks := run[i].members[n], NewMarks(After(run[..i]), run[i]);
            Ahead(run, i, n) <==> m != run[i].peer && m in marks && marks[m].hw > run[i].hw
  {
    HeldIsLatest(run, i, run[i].members[n]);
    assert HeldRight(run, i, run[i].members[n]);
  }

  lemma {:induction false} SiblingIsFirst(marks: map<string, Mark>, r: Report, n: nat) returns (k: nat)
    requires n <= |r.members|
    ensures n <= k <= |r.members|
    ensures forall m | n <= m < k :: !(r.members[m] != r.peer && r.members[m] in marks && marks[r.members[m]].hw > r.hw)
    ensures if k == |r.members| then Sibling(marks, r, n) == Verdict(false, 0, r.gen != "")
            else r.members[k] != r.peer && r.members[k] in marks && marks[r.members[k]].hw > r.hw
                 && Sibling(marks, r, n) == Verdict(true, marks[r.members[k]].hw, false)
    decreases |r.members| - n
  {
    k := n;
    if n < |r.members| && !(r.members[n] != r.peer && r.members[n] in marks && marks[r.members[n]].hw > r.hw) {
      k := SiblingIsFirst(marks, r, n + 1);
    }
  }

  /** A report that is not below its own floor lags exactly when some other listed member's latest report
      is higher; it is measured against the first such member, and otherwise it is certain when named. */
  lemma LagsExactly(run: seq<Report>, i: nat)
    requires i < |run| && !BelowOwn(run, i)
    ensures VerdictAt(run, i).behind <==> exists n: nat :: Ahead(run, i, n)
    ensures forall n: nat, j: nat | Ahead(run, i, n) && (forall m: nat | m < n :: !Ahead(run, i, m))
                                    && Latest(run, i, run[i].members[n], j) ::
              VerdictAt(run, i) == Verdict(true, run[j].hw, false)
    ensures !VerdictAt(run, i).behind ==> VerdictAt(run, i) == Verdict(false, 0, run[i].gen != "")
  {
    var r, marks := run[i], NewMarks(After(run[..i]), run[i]);
    FloorIsTenureMax(run, i, r.peer);
    assert FloorRight(run, i, r.peer);
    var k := SiblingIsFirst(marks, r, 0);
    forall n: nat | n < |r.members|
      ensures Ahead(run, i, n) <==> r.members[n] != r.peer && r.members[n] in marks && marks[r.members[n]].hw > r.hw
    {
      AheadMark(run, i, n);
    }
    assert forall m: nat | m < k :: !Ahead(run, i, m);
    if k < |r.members| {
      assert Ahead(run, i, k);
      HeldIsLatest(run, i, r.members[k]);
      assert HeldRight(run, i, r.members[k]);
    }
  }

  /** A report below its own floor is measured against that floor, the highest report that still counts;
      it is behind unless it names another process than the latest report did, and certain when both name one. */
  lemma FallsExactly(run: seq<Report>, i: nat, j: nat)
    requires i < |run| && BelowOwn(run, i) && Latest(run, i, run[i].peer, j)
    ensures var v := VerdictAt(run, i);
            && (v.behind <==> run[i].gen == run[j].gen || run[i].gen == "" || run[j].gen == "")
            && (v.certain <==> run[i].gen != "" && run[j].gen != "")
            && (exists k: nat :: Counts(run, i, run[i].peer, k) && run[k].hw == v.prev)
            && (forall k: nat | Counts(run, i, run[i].peer, k) :: run[k].hw <= v.prev)
  {
    FloorIsTenureMax(run, i, run[i].peer);
    assert FloorRight(run, i, run[i].peer);
    HeldIsLatest(run, i, run[i].peer);
    assert HeldRight(run, i, run[i].peer);
  }
}
