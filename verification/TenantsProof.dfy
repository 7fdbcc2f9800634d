/** Every interleaving keeps the invariant. */
module TenantsProof {
  import opened Tenants

  // ------------------------------------------------------------------ counting claims

  lemma ClaimsSnoc(claims: seq<Claim>, c: Claim, t: nat)
    ensures Claims(claims + [c], t) == Claims(claims, t) + Live(c, t)
  {
    assert (claims + [c])[..|claims|] == claims;
  }

  lemma {:induction false} ClaimsUpdate(claims: seq<Claim>, i: nat, c: Claim, t: nat)
    requires i < |claims|
    ensures Claims(claims[i := c], t) == Claims(claims, t) - Live(claims[i], t) + Live(c, t)
  {
    var n := |claims| - 1;
    if i == n {
      assert claims[i := c][..n] == claims[..n];
    } else {
      ClaimsUpdate(claims[..n], i, c, t);
      assert claims[i := c][..n] == claims[..n][i := c];
    }
  }

  lemma {:induction false} ClaimCounts(claims: seq<Claim>, i: nat)
    requires i < |claims| && claims[i].phase != Released
    ensures Claims(claims, claims[i].tenant) >= 1
  {
    var n := |claims| - 1;
    if i < n { ClaimCounts(claims[..n], i); }
  }

  lemma {:induction false} NoClaims(claims: seq<Claim>, t: nat)
    requires forall i | 0 <= i < |claims| :: claims[i].tenant < t
    ensures Claims(claims, t) == 0
  {
    if claims != [] { NoClaims(claims[..|claims| - 1], t); }
  }

  // ------------------------------------------------------------------ each step

  lemma AddClaimKeeps(s: State, t: nat)
    requires Inv(s) && t < |s.tenants| && !s.tenants[t].closed
    ensures Inv(AddClaim(s, t))
  {
    var r := AddClaim(s, t);
    forall u: nat | u < |r.tenants| ensures r.tenants[u].inFlight == Claims(r.claims, u) {
      ClaimsSnoc(s.claims, Claim(t, Held), u);
    }
    DefaultKept(s, r);
  }

  lemma DefaultKept(s: State, r: State)
    requires DefaultOpen(s) && r.default == s.default && (forall k | k in s.open && s.open[k] == s.default :: k in r.open && r.open[k] == s.default)
    ensures DefaultOpen(r)
  {
    var k :| k in s.open && s.open[k] == s.default;
    assert k in r.open;
  }

  lemma TouchKeeps(s: State, t: nat, now: int)
    requires Inv(s) && t < |s.tenants|
    ensures Inv(Touch(s, t, now))
  {
    DefaultKept(s, Touch(s, t, now));
  }

  /** Evicting closes only a tenant without claims, never the default one. */
  lemma EvictKeeps(s: State, k: Key)
    requires Inv(s) && Idle(s, k)
    ensures Inv(Evict(s, k)) && |Evict(s, k).open| == |s.open| - 1
  {
    var r := Evict(s, k);
    assert Claims(s.claims, s.open[k]) >= 0;
    assert r.open.Keys == s.open.Keys - {k};
    DefaultKept(s, r);
  }

  /** A new tenant, not claimed yet. */
  function Added(s: State, k: Key, now: int): State {
    s.(open := s.open[k := |s.tenants|], tenants := s.tenants + [Tenant(0, now, false)])
  }

  lemma AddedCounted(s: State, k: Key, now: int)
    requires Counted(s)
    ensures Counted(Added(s, k, now))
  {
    NoClaims(s.claims, |s.tenants|);
  }

  lemma AddedOpenOnce(s: State, k: Key, now: int)
    requires OpenOnce(s) && k !in s.open
    ensures OpenOnce(Added(s, k, now)) && |Added(s, k, now).open| == |s.open| + 1
  {
    var r := Added(s, k, now);
    assert r.open.Keys == s.open.Keys + {k};
    assert forall j | j in s.open :: r.open[j] == s.open[j];
  }

  lemma OpenKeeps(s: State, k: Key, now: int)
    requires Inv(s) && k !in s.open && (s.limit >= 1 ==> |s.open| < s.limit)
    ensures Inv(Open(s, k, now))
  {
    AddedCounted(s, k, now);
    AddedOpenOnce(s, k, now);
    DefaultKept(s, Added(s, k, now));
    AddClaimKeeps(Added(s, k, now), |s.tenants|);
  }

  lemma AcquireKeeps(s: State, k: Key, now: int, s': State)
    requires Inv(s) && AcquireStep(s, k, now, s')
    ensures Inv(s')
  {
    if k in s.open {
      TouchKeeps(s, s.open[k], now);
      AddClaimKeeps(Touch(s, s.open[k], now), s.open[k]);
    } else if !Full(s) {
      OpenKeeps(s, k, now);
    } else if exists v :: Victim(s, v) {
      var v :| Victim(s, v) && (s' == Open(Evict(s, v), k, now) || s' == Evict(s, v));
      EvictKeeps(s, v);
      OpenKeeps(Evict(s, v), k, now);
    }
  }

  lemma WinDoneKeeps(s: State, c: nat)
    requires Inv(s) && c < |s.claims|
    ensures Inv(WinDone(s, c))
  {
    var r := WinDone(s, c);
    forall t: nat | t < |r.tenants| ensures r.tenants[t].inFlight == Claims(r.claims, t) {
      ClaimsUpdate(s.claims, c, s.claims[c].(phase := Dropping), t);
    }
    DefaultKept(s, r);
  }

  lemma DropKeeps(s: State, c: nat)
    requires Inv(s) && c < |s.claims|
    ensures Inv(Drop(s, c))
  {
    var r := Drop(s, c);
    if s.claims[c].phase.Dropping? {
      ClaimCounts(s.claims, c);
      forall t: nat | t < |r.tenants| ensures r.tenants[t].inFlight == Claims(r.claims, t) {
        ClaimsUpdate(s.claims, c, s.claims[c].(phase := Released), t);
      }
    }
    DefaultKept(s, r);
  }

  lemma {:induction false} ClaimEachKeeps(s: State, ts: seq<nat>)
    requires Inv(s) && forall i | 0 <= i < |ts| :: ts[i] < |s.tenants| && !s.tenants[ts[i]].closed
    ensures Inv(ClaimEach(s, ts))
    ensures forall t | 0 <= t < |s.tenants| :: ClaimEach(s, ts).tenants[t].closed == s.tenants[t].closed
    ensures ClaimEach(s, ts).open == s.open
  {
    if ts != [] {
      var n := |ts| - 1;
      ClaimEachKeeps(s, ts[..n]);
      AddClaimKeeps(ClaimEach(s, ts[..n]), ts[n]);
    }
  }

  lemma {:induction false} ClaimEachOnce(s: State, ts: seq<nat>, t: nat)
    requires (forall i | 0 <= i < |ts| :: ts[i] < |s.tenants|) && (forall i, j | 0 <= i < j < |ts| :: ts[i] != ts[j]) && t < |s.tenants|
    ensures ClaimEach(s, ts).tenants[t] == s.tenants[t].(inFlight := s.tenants[t].inFlight + if t in ts then 1 else 0)
  {
    if |ts| > 0 {
      var n := |ts| - 1;
      ClaimEachOnce(s, ts[..n], t);
      assert ts == ts[..n] + [ts[n]] && ts[n] !in ts[..n];
    }
  }

  /** A walk claims every open tenant once and no other. */
  lemma WalkClaimsOnce(s: State, ts: seq<nat>)
    requires Roster(s, ts)
    ensures forall t | 0 <= t < |s.tenants| ::
              ClaimEach(s, ts).tenants[t].inFlight == s.tenants[t].inFlight + if t in s.open.Values then 1 else 0
  {
    forall t: nat | t < |s.tenants|
      ensures ClaimEach(s, ts).tenants[t].inFlight == s.tenants[t].inFlight + if t in s.open.Values then 1 else 0
    {
      ClaimEachOnce(s, ts, t);
      if t in s.open.Values {
        var k :| k in s.open && s.open[k] == t;
      }
    }
  }

  lemma StepKeeps(s: State, s': State)
    requires Inv(s) && Step(s, s')
    ensures Inv(s')
  {
    if k, now :| AcquireStep(s, k, now, s') {
      AcquireKeeps(s, k, now, s');
    } else if c: nat :| c < |s.claims| && s' == WinDone(s, c) {
      WinDoneKeeps(s, c);
    } else if c: nat :| c < |s.claims| && s.claims[c].tenant < |s.tenants| && s' == Drop(s, c) {
      DropKeeps(s, c);
    } else {
      var ts: seq<nat> :| Roster(s, ts) && s' == ClaimEach(s, ts);
      ClaimEachKeeps(s, ts);
    }
  }

  // ------------------------------------------------------------------ every run

  ghost predicate Run(states: seq<State>) {
    && states != [] && Init(states[0])
    && forall i | 0 <= i < |states| - 1 :: Step(states[i], states[i + 1])
  }

  lemma InitHolds(s: State)
    requires Init(s)
    ensures Inv(s)
  {
    var k :| s.open == map[k := 0];
    assert s.open.Keys == {k};
    assert k in s.open && s.open[k] == s.default;
  }

  /** Whatever the interleaving of acquires, releases, evictions and walks, the invariant holds in
      every state. */
  lemma {:induction false} EveryRunIsSafe(states: seq<State>, i: nat)
    requires Run(states) && i < |states|
    ensures Inv(states[i])
  {
    if i == 0 {
      InitHolds(states[0]);
    } else {
      EveryRunIsSafe(states, i - 1);
      assert Step(states[i - 1], states[i - 1 + 1]);
      StepKeeps(states[i - 1], states[i]);
    }
  }

  /** A claim not yet released is on a tenant that is still open, in every state of every run. */
  lemma ClaimedIsNeverClosed(states: seq<State>, i: nat, c: nat)
    requires Run(states) && i < |states| && c < |states[i].claims| && states[i].claims[c].phase != Released
    ensures states[i].claims[c].tenant < |states[i].tenants|
    ensures !states[i].tenants[states[i].claims[c].tenant].closed
  {
    EveryRunIsSafe(states, i);
    ClaimCounts(states[i].claims, c);
  }

  function Rank(p: Phase): nat {
    match p case Held => 0 case Dropping => 1 case Released => 2
  }

  /** Claims are never forgotten or moved, and only go forward. */
  ghost predicate Onward(s: State, s': State) {
    && |s.claims| <= |s'.claims|
    && forall c | 0 <= c < |s.claims| ::
         s'.claims[c].tenant == s.claims[c].tenant && Rank(s'.claims[c].phase) >= Rank(s.claims[c].phase)
  }

  lemma {:induction false} ClaimEachOnward(s: State, ts: seq<nat>)
    requires forall i | 0 <= i < |ts| :: ts[i] < |s.tenants|
    ensures Onward(s, ClaimEach(s, ts))
  {
    if ts != [] { ClaimEachOnward(s, ts[..|ts| - 1]); }
  }

  lemma AcquireOnward(s: State, k: Key, now: int, s': State)
    requires AcquireStep(s, k, now, s')
    ensures s'.claims == s.claims || exists t :: s'.claims == s.claims + [Claim(t, Held)]
  {
  }

  lemma StepOnward(s: State, s': State)
    requires Step(s, s')
    ensures Onward(s, s')
  {
    if k, now :| AcquireStep(s, k, now, s') {
      AcquireOnward(s, k, now, s');
    } else if c: nat :| c < |s.claims| && s' == WinDone(s, c) {
    } else if c: nat :| c < |s.claims| && s.claims[c].tenant < |s.tenants| && s' == Drop(s, c) {
    } else {
      var ts: seq<nat> :| Roster(s, ts) && s' == ClaimEach(s, ts);
      ClaimEachOnward(s, ts);
    }
  }

  /** A claim released stays released, so its count is given back exactly once. */
  lemma {:induction false} ReleasedOnce(states: seq<State>, i: nat, j: nat)
    requires Run(states) && i <= j < |states|
    ensures Onward(states[i], states[j])
    decreases j
  {
    if i < j {
      ReleasedOnce(states, i, j - 1);
      assert Step(states[j - 1], states[j - 1 + 1]);
      StepOnward(states[j - 1], states[j]);
    }
  }
}
