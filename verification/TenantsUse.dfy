/** Which tenant eviction closes: over any run, the idle one whose latest request is oldest. */
module TenantsUse {
  import opened Tenants
  import opened TenantsProof

  /** A request for a tenant at some time, or half a release or a walk. */
  datatype Event = Request(key: Key, now: int) | Other

  ghost predicate Happens(s: State, e: Event, s': State) {
    match e
    case Request(k, now) => AcquireStep(s, k, now, s')
    case Other =>
      || (exists c: nat :: c < |s.claims| && s' == WinDone(s, c))
      || (exists c: nat :: c < |s.claims| && s.claims[c].tenant < |s.tenants| && s' == Drop(s, c))
      || WalkStep(s, s')
  }

  /** A run with the event of every step written down. */
  ghost predicate Timeline(states: seq<State>, events: seq<Event>) {
    && |states| == |events| + 1 && Init(states[0])
    && forall i | 0 <= i < |events| :: Happens(states[i], events[i], states[i + 1])
  }

  lemma TimelineRuns(states: seq<State>, events: seq<Event>)
    requires Timeline(states, events)
    ensures Run(states)
  {
    forall i | 0 <= i < |states| - 1 ensures Step(states[i], states[i + 1]) {
      assert Happens(states[i], events[i], states[i + 1]);
    }
  }

  /** Event i is a request that was handed tenant t. */
  ghost predicate Served(states: seq<State>, events: seq<Event>, i: nat, t: nat)
    requires |states| == |events| + 1
  {
    i < |events| && events[i].Request? && states[i + 1].claims == states[i].claims + [Claim(t, Held)]
  }

  /** Event i is the latest request before state n that was handed tenant t. */
  ghost predicate LastServed(states: seq<State>, events: seq<Event>, n: nat, t: nat, i: nat)
    requires |states| == |events| + 1
  {
    i < n && Served(states, events, i, t) && forall j: nat | i < j < n :: !Served(states, events, j, t)
  }

  // ------------------------------------------------------------------ one step

  /** A request marks the tenant it hands out as used now, and no other; one that hands out nothing
      marks nothing. */
  ghost predicate Marks(s: State, now: int, s': State, t: nat) {
    && s'.claims == s.claims + [Claim(t, Held)] && t < |s'.tenants| && s'.tenants[t].lastUse == now
    && |s.tenants| <= |s'.tenants| && s'.default == s.default
    && forall u: nat | u < |s'.tenants| && u != t :: u < |s.tenants| && s'.tenants[u].lastUse == s.tenants[u].lastUse
  }

  ghost predicate SameUse(s: State, s': State) {
    && |s'.tenants| == |s.tenants| && s'.default == s.default
    && forall u: nat | u < |s.tenants| :: s'.tenants[u].lastUse == s.tenants[u].lastUse
  }

  lemma OpenMarks(s: State, k: Key, now: int)
    ensures Marks(s, now, Open(s, k, now), |s.tenants|)
  {
  }

  lemma RequestMarks(s: State, k: Key, now: int, s': State)
    requires AcquireStep(s, k, now, s')
    ensures (s'.claims == s.claims && SameUse(s, s')) || exists t: nat :: Marks(s, now, s', t)
    ensures k in s.open ==> Marks(s, now, s', s.open[k])
  {
    if k in s.open {
      assert Marks(s, now, s', s.open[k]);
    } else if s' == Open(s, k, now) {
      OpenMarks(s, k, now);
    } else if v :| Victim(s, v) && s' == Open(Evict(s, v), k, now) {
      OpenMarks(Evict(s, v), k, now);
      assert Marks(s, now, s', |s.tenants|);
    }
  }

  lemma {:induction false} ClaimEachUse(s: State, ts: seq<nat>)
    requires forall i | 0 <= i < |ts| :: ts[i] < |s.tenants|
    ensures SameUse(s, ClaimEach(s, ts))
  {
    if ts != [] { ClaimEachUse(s, ts[..|ts| - 1]); }
  }

  lemma OtherMarksNothing(s: State, s': State)
    requires Happens(s, Other, s')
    ensures SameUse(s, s')
  {
    if WalkStep(s, s') {
      var ts: seq<nat> :| Roster(s, ts) && s' == ClaimEach(s, ts);
      ClaimEachUse(s, ts);
    }
  }

  // ------------------------------------------------------------------ every run

  /** A tenant's mark is the time of the latest request handed it; only the first tenant may not have
      been handed out yet. */
  ghost predicate UseRight(states: seq<State>, events: seq<Event>, n: nat, t: nat)
    requires |states| == |events| + 1 && n < |states| && |states[0].tenants| > 0
  {
    t < |states[n].tenants| ==>
      || (exists i: nat :: LastServed(states, events, n, t, i) && states[n].tenants[t].lastUse == events[i].now)
      || (t == 0 && (forall i: nat | i < n :: !Served(states, events, i, t)) && states[n].tenants[0].lastUse == states[0].tenants[0].lastUse)
  }

  lemma UseKept(states: seq<State>, events: seq<Event>, n: nat, t: nat)
    requires |states| == |events| + 1 && n < |events| && |states[0].tenants| > 0 && UseRight(states, events, n, t)
    requires t < |states[n + 1].tenants| ==> t < |states[n].tenants| && states[n + 1].tenants[t].lastUse == states[n].tenants[t].lastUse
    requires !Served(states, events, n, t)
    ensures UseRight(states, events, n + 1, t)
  {
    if i: nat :| LastServed(states, events, n, t, i) && t < |states[n].tenants| && states[n].tenants[t].lastUse == events[i].now {
      assert LastServed(states, events, n + 1, t, i);
    }
  }

  lemma {:induction false} MarkIsLatestRequest(states: seq<State>, events: seq<Event>, n: nat, t: nat)
    requires Timeline(states, events) && n < |states|
    ensures UseRight(states, events, n, t)
    ensures |states[n].tenants| > 0 && states[n].default == 0
  {
    if n > 0 {
      var m := n - 1;
      MarkIsLatestRequest(states, events, m, t);
      assert Happens(states[m], events[m], states[m + 1]);
      if events[m].Request? {
        RequestMarks(states[m], events[m].key, events[m].now, states[n]);
        if u: nat :| Marks(states[m], events[m].now, states[n], u) {
          if u == t {
            assert LastServed(states, events, n, t, m);
          } else {
            assert states[n].claims[|states[m].claims|] == Claim(u, Held);
            UseKept(states, events, m, t);
          }
        } else {
          UseKept(states, events, m, t);
        }
      } else {
        OtherMarksNothing(states[m], states[n]);
        UseKept(states, events, m, t);
      }
    }
  }

  /** The step into state n + 1 closed this tenant. */
  ghost predicate ClosedAt(states: seq<State>, n: nat, t: nat) {
    && n + 1 < |states| && t < |states[n].tenants| && t < |states[n + 1].tenants|
    && !states[n].tenants[t].closed && states[n + 1].tenants[t].closed
  }

  lemma ClosedIsVictim(states: seq<State>, events: seq<Event>, n: nat, t: nat) returns (v: Key)
    requires Timeline(states, events) && ClosedAt(states, n, t)
    ensures Victim(states[n], v) && states[n].open[v] == t && events[n].Request? && events[n].key !in states[n].open && Full(states[n])
  {
    var s, s' := states[n], states[n + 1];
    assert Happens(s, events[n], s');
    if events[n] == Other {
      OtherClosesNothing(s, s');
    }
    v :| Victim(s, v) && (s' == Open(Evict(s, v), events[n].key, events[n].now) || s' == Evict(s, v));
  }

  lemma OtherClosesNothing(s: State, s': State)
    requires Happens(s, Other, s')
    ensures |s'.tenants| == |s.tenants| && forall t: nat | t < |s.tenants| :: s'.tenants[t].closed == s.tenants[t].closed
  {
    if WalkStep(s, s') {
      var ts: seq<nat> :| Roster(s, ts) && s' == ClaimEach(s, ts);
      ClaimEachCloses(s, ts);
    }
  }

  lemma {:induction false} ClaimEachCloses(s: State, ts: seq<nat>)
    requires forall i | 0 <= i < |ts| :: ts[i] < |s.tenants|
    ensures forall t: nat | t < |s.tenants| :: ClaimEach(s, ts).tenants[t].closed == s.tenants[t].closed
  {
    if ts != [] { ClaimEachCloses(s, ts[..|ts| - 1]); }
  }

  /** In any run a tenant is closed only by a request that found the table full, while nobody claims it,
      and its latest request is no later than that of any other tenant that could have been closed. */
  lemma ClosesLeastRecent(states: seq<State>, events: seq<Event>, n: nat, t: nat, k: Key) returns (i: nat, j: nat)
    requires Timeline(states, events) && ClosedAt(states, n, t)
    requires k in states[n].open && states[n].open[k] != 0
    requires forall c | 0 <= c < |states[n].claims| && states[n].claims[c].phase != Released :: states[n].claims[c].tenant != states[n].open[k]
    ensures t != 0 && forall c | 0 <= c < |states[n].claims| && states[n].claims[c].phase != Released :: states[n].claims[c].tenant != t
    ensures LastServed(states, events, n, t, i) && LastServed(states, events, n, states[n].open[k], j)
    ensures events[i].now <= events[j].now
    ensures (forall a, b | 0 <= a < b < n && events[a].Request? && events[b].Request? :: events[a].now < events[b].now) ==> i <= j
  {
    var s, u := states[n], states[n].open[k];
    var v := ClosedIsVictim(states, events, n, t);
    TimelineRuns(states, events);
    EveryRunIsSafe(states, n);
    MarkIsLatestRequest(states, events, n, t);
    MarkIsLatestRequest(states, events, n, u);
    Unclaimed(s.claims, u);
    assert Idle(s, k);
    i :| LastServed(states, events, n, t, i) && s.tenants[t].lastUse == events[i].now;
    j :| LastServed(states, events, n, u, j) && s.tenants[u].lastUse == events[j].now;
    forall c | 0 <= c < |s.claims| && s.claims[c].phase != Released ensures s.claims[c].tenant != t {
      ClaimCounts(s.claims, c);
    }
  }

  lemma {:induction false} Unclaimed(claims: seq<Claim>, t: nat)
    requires forall c | 0 <= c < |claims| && claims[c].phase != Released :: claims[c].tenant != t
    ensures Claims(claims, t) == 0
  {
    if claims != [] { Unclaimed(claims[..|claims| - 1], t); }
  }
}
