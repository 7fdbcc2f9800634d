/** The ingester's rejected ordinals mapped onto the items of the response. */
module BulkRejects {
  import opened Basics
  import opened Bulk
  import opened Sets

  /** Whether every reported ordinal names a candidate. */
  predicate InRange(rejectedAt: seq<int>, candidates: nat) {
    forall k | 0 <= k < |rejectedAt| :: 0 <= rejectedAt[k] < candidates
  }

  /** Whether the positions reported place every rejection. */
  predicate Placed(rejected: int, rejectedAt: seq<int>, truncated: bool, candidates: nat) {
    !truncated && |rejectedAt| == rejected && InRange(rejectedAt, candidates)
  }

  /** Whether a status can be written on every item. */
  predicate Attributable(rejected: int, rejectedAt: seq<int>, truncated: bool, candidates: nat) {
    rejected <= 0 || Placed(rejected, rejectedAt, truncated, candidates) || rejected >= candidates
  }

  /** The items a complete answer marks. */
  ghost function Marked(ops: seq<Op>, rejected: int, rejectedAt: seq<int>, truncated: bool): set<nat> {
    var idx := Candidates(ops);
    if rejected <= 0 then {}
    else if Placed(rejected, rejectedAt, truncated, |idx|) then set i | i in At(idx, rejectedAt)
    else set i | i in idx
  }

  /** The items at some ordinals. */
  function At(idx: seq<nat>, rejectedAt: seq<int>): seq<nat>
    requires InRange(rejectedAt, |idx|)
  {
    seq(|rejectedAt|, k requires 0 <= k < |rejectedAt| => idx[rejectedAt[k]])
  }

  lemma {:induction false} CandidatesBelow(ops: seq<Op>)
    ensures forall k | 0 <= k < |Candidates(ops)| ::
              Candidates(ops)[k] < |ops| && ops[Candidates(ops)[k]].doc.Some?
              && ops[Candidates(ops)[k]].verdict.Created?
    ensures forall j, k | 0 <= j < k < |Candidates(ops)| :: Candidates(ops)[j] < Candidates(ops)[k]
  {
    if ops != [] {
      var n := |ops| - 1;
      CandidatesBelow(ops[..n]);
    }
  }

  /** Every accepted item with a document is a candidate. */
  lemma {:induction false} CandidatesAll(ops: seq<Op>, i: nat)
    requires i < |ops| && ops[i].doc.Some? && ops[i].verdict.Created?
    ensures i in Candidates(ops)
  {
    var n := |ops| - 1;
    if i < n { CandidatesAll(ops[..n], i); }
  }

  method BulkCandidates(ops: array<Op>) returns (idx: seq<nat>)
    ensures idx == Candidates(ops[..])
  {
    idx := [];
    var i := 0;
    while i < ops.Length
      invariant 0 <= i <= ops.Length
      invariant idx == Candidates(ops[..i])
    {
      assert ops[..i + 1][..i] == ops[..i];
      if ops[i].doc.Some? && ops[i].verdict.Created? { idx := idx + [i]; }
      i := i + 1;
    }
    assert ops[..i] == ops[..];
  }

  /** Marks the items at some positions, and only those. */
  method MarkAll(ops: array<Op>, at: seq<nat>)
    requires forall k | 0 <= k < |at| :: at[k] < ops.Length
    modifies ops
    ensures forall i | 0 <= i < ops.Length ::
              ops[i] == if i in at then old(ops[i]).(verdict := IngesterRejected) else old(ops[i])
  {
    var k := 0;
    while k < |at|
      invariant 0 <= k <= |at|
      invariant forall i | 0 <= i < ops.Length ::
                  ops[i] == if i in at[..k] then old(ops[i]).(verdict := IngesterRejected) else old(ops[i])
    {
      assert at[..k + 1] == at[..k] + [at[k]];
      ops[at[k]] := ops[at[k]].(verdict := IngesterRejected);
      k := k + 1;
    }
    assert at[..k] == at;
  }

  method AllKnown(rejectedAt: seq<int>, candidates: nat) returns (known: bool)
    ensures known <==> InRange(rejectedAt, candidates)
  {
    var k := 0;
    while k < |rejectedAt|
      invariant 0 <= k <= |rejectedAt|
      invariant forall j | 0 <= j < k :: 0 <= rejectedAt[j] < candidates
    {
      if rejectedAt[k] < 0 || rejectedAt[k] >= candidates { return false; }
      k := k + 1;
    }
    return true;
  }

  /** Marks exactly the rejected items, or marks nothing and says so. */
  method MarkBulkRejects(ops: array<Op>, rejected: int, rejectedAt: seq<int>, truncated: bool) returns (ok: bool)
    modifies ops
    ensures ok <==> Attributable(rejected, rejectedAt, truncated, |Candidates(old(ops[..]))|)
    ensures forall i | 0 <= i < ops.Length ::
              ops[i] == if ok && i in Marked(old(ops[..]), rejected, rejectedAt, truncated)
                        then old(ops[i]).(verdict := IngesterRejected) else old(ops[i])
  {
    if rejected <= 0 { return true; }
    var idx := BulkCandidates(ops);
    CandidatesBelow(ops[..]);
    if !truncated && |rejectedAt| == rejected {
      var known := AllKnown(rejectedAt, |idx|);
      if known {
        MarkAll(ops, At(idx, rejectedAt));
        return true;
      }
    }
    if rejected >= |idx| {
      MarkAll(ops, idx);
      return true;
    }
    return false;
  }

  // ------------------------------------------------------------------ what a true report gives

  /** The report is true of the set of candidate ordinals the ingester refused: the count is right,
      and positions that are not truncated are all of them, each once. */
  ghost predicate Truthful(refused: set<nat>, candidates: nat, rejected: int, rejectedAt: seq<int>, truncated: bool) {
    && (forall o | o in refused :: o < candidates)
    && rejected == |refused|
    && (!truncated ==> |rejectedAt| == rejected)
    && (forall k | 0 <= k < |rejectedAt| :: 0 <= rejectedAt[k] && rejectedAt[k] in refused)
    && (forall j, k | 0 <= j < k < |rejectedAt| :: rejectedAt[j] != rejectedAt[k])
  }

  /** A duplicate-free list in a set, as long as the set is large, covers it. */
  lemma {:induction false} ListCovers(s: set<nat>, at: seq<int>)
    requires |at| == |s| && (forall k | 0 <= k < |at| :: 0 <= at[k] && at[k] in s)
    requires forall j, k | 0 <= j < k < |at| :: at[j] != at[k]
    ensures forall o | o in s :: o in at
  {
    if at != [] {
      var n := |at| - 1;
      var last: nat := at[n];
      assert forall k | 0 <= k < n :: at[..n][k] in s - {last};
      ListCovers(s - {last}, at[..n]);
      assert forall o | o in s && o != last :: o in at[..n];
    }
  }

  /** The items of the refused documents. */
  ghost predicate Refused(idx: seq<nat>, refused: set<nat>, i: nat) {
    exists o :: o in refused && o < |idx| && idx[o] == i
  }

  lemma PlacedExactly(idx: seq<nat>, refused: set<nat>, rejectedAt: seq<int>)
    requires Truthful(refused, |idx|, |rejectedAt|, rejectedAt, false)
    ensures InRange(rejectedAt, |idx|)
    ensures forall i :: i in At(idx, rejectedAt) <==> Refused(idx, refused, i)
  {
    ListCovers(refused, rejectedAt);
    var at := At(idx, rejectedAt);
    forall i: nat | i in at ensures Refused(idx, refused, i) {
      var k :| 0 <= k < |at| && at[k] == i;
      var o: nat := rejectedAt[k];
      assert o in refused && idx[o] == i;
    }
    forall i: nat | Refused(idx, refused, i) ensures i in at {
      var o :| o in refused && o < |idx| && idx[o] == i;
      var k :| 0 <= k < |rejectedAt| && rejectedAt[k] == o;
      assert at[k] == i;
    }
  }

  lemma AllExactly(idx: seq<nat>, refused: set<nat>)
    requires (forall o | o in refused :: o < |idx|) && |refused| >= |idx|
    ensures forall i :: i in idx <==> Refused(idx, refused, i)
  {
    FullSet(refused, |idx|);
    forall i: nat | i in idx ensures Refused(idx, refused, i) {
      var o: nat :| o < |idx| && idx[o] == i;
      assert o in refused;
    }
  }

  /** Under a true report, a complete answer carries 400 on exactly the refused documents' items and
      leaves every other item its status. */
  lemma ExactlyTheRefused(ops: seq<Op>, refused: set<nat>, rejected: int, rejectedAt: seq<int>, truncated: bool)
    requires Truthful(refused, |Candidates(ops)|, rejected, rejectedAt, truncated)
    requires Attributable(rejected, rejectedAt, truncated, |Candidates(ops)|)
    ensures forall i :: i in Marked(ops, rejected, rejectedAt, truncated) <==> Refused(Candidates(ops), refused, i)
  {
    var idx := Candidates(ops);
    if rejected <= 0 {
      assert refused == {};
    } else if Placed(rejected, rejectedAt, truncated, |idx|) {
      PlacedExactly(idx, refused, rejectedAt);
    } else {
      AllExactly(idx, refused);
    }
  }

  /** A true report is left unanswered exactly when its positions are truncated and some documents
      were stored beside the refused ones. */
  lemma UnansweredExactly(ops: seq<Op>, refused: set<nat>, rejected: int, rejectedAt: seq<int>, truncated: bool)
    requires Truthful(refused, |Candidates(ops)|, rejected, rejectedAt, truncated)
    ensures !Attributable(rejected, rejectedAt, truncated, |Candidates(ops)|) <==>
            truncated && 0 < |refused| < |Candidates(ops)|
  {
  }
}
