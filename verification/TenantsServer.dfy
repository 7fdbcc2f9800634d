/** The server's tenant table as it is updated: each method runs under the server lock, or is one
atomic operation on a claim, and is one step of the protocol. */
module TenantsServer {
  import opened Tenants
  import opened TenantsProof

  lemma ClaimEachSnoc(s: State, ts: seq<nat>, t: nat)
    requires t < |s.tenants| && forall i | 0 <= i < |ts| :: ts[i] < |s.tenants|
    ensures ClaimEach(s, ts + [t]) == AddClaim(ClaimEach(s, ts), t)
  {
    assert (ts + [t])[..|ts|] == ts;
  }

  /** The tenants listed so far, `left` being the keys still to come. */
  ghost predicate Listed(s: State, ts: seq<nat>, left: set<Key>) {
    && left <= s.open.Keys
    && (forall i | 0 <= i < |ts| :: ts[i] < |s.tenants| && ts[i] in s.open.Values)
    && (forall i, k | 0 <= i < |ts| && k in left :: ts[i] != s.open[k])
    && (forall i, j | 0 <= i < j < |ts| :: ts[i] != ts[j])
    && (forall k | k in s.open && k !in left :: s.open[k] in ts)
  }

  lemma ListOne(s: State, ts: seq<nat>, left: set<Key>, k: Key)
    requires OpenOnce(s) && Listed(s, ts, left) && k in left
    ensures Listed(s, ts + [s.open[k]], left - {k})
  {
  }

  class Server {
    var open: map<Key, nat>
    var tenants: seq<Tenant>
    var claims: seq<Claim>
    const default: nat
    const limit: int

    constructor (key: Key, now: int, limit: int)
      ensures Now() == State(map[key := 0], [Tenant(0, now, false)], [], 0, limit)
      ensures Inv(Now())
    {
      open, tenants, claims := map[key := 0], [Tenant(0, now, false)], [];
      default, this.limit := 0, limit;
      new;
      InitHolds(Now());
    }

    function Now(): State
      reads this
    {
      State(open, tenants, claims, default, limit)
    }

    /** Hands a tenant out already claimed. A refusal means every slot is taken by a claimed tenant or
        the default one, or the store did not open. */
    method Acquire(key: Key, now: int, opens: bool) returns (claim: int)
      requires Inv(Now())
      modifies this
      ensures Inv(Now()) && AcquireStep(old(Now()), key, now, Now())
      ensures claim >= 0 ==> claim == |old(claims)| == |claims| - 1 && claims[claim].phase == Held
                             && key in open && open[key] == claims[claim].tenant < |tenants|
                             && tenants[open[key]].lastUse == now
      ensures claim < 0 ==> claims == old(claims)
      ensures claim >= 0 <==> (key in old(open) ||
                               (opens && (limit == UNLIMITED || |old(open)| < limit || exists k :: Idle(old(Now()), k))))
    {
      ghost var was := Now();
      if key in open {
        var t := open[key];
        tenants := tenants[t := tenants[t].(lastUse := now)];
        claim := MarkBusy(t);
        AcquireKeeps(was, key, now, Now());
        return;
      }
      if limit != UNLIMITED && |open| >= limit {
        var freed := EvictIdle();
        if !freed { return -1; }
      }
      claim := -1;
      if opens { claim := OpenStore(key, now); }
      AcquireKeeps(was, key, now, Now());
    }

    /** One more claim on a tenant. */
    method MarkBusy(t: nat) returns (claim: nat)
      requires t < |tenants|
      modifies this
      ensures Now() == AddClaim(old(Now()), t) && claim == |old(claims)|
    {
      tenants := tenants[t := tenants[t].(inFlight := tenants[t].inFlight + 1)];
      claims := claims + [Claim(t, Held)];
      claim := |claims| - 1;
    }

    /** A new tenant, handed out claimed. */
    method OpenStore(key: Key, now: int) returns (claim: nat)
      modifies this
      ensures Now() == Open(old(Now()), key, now) && claim == |old(claims)|
    {
      open := open[key := |tenants|];
      tenants := tenants + [Tenant(0, now, false)];
      claim := MarkBusy(|tenants| - 1);
    }

    /** Closes the least recently used tenant nobody claims; the order the table is walked in is
        arbitrary. */
    method EvictIdle() returns (freed: bool)
      requires Inv(Now())
      modifies this
      ensures freed <==> exists k :: Idle(old(Now()), k)
      ensures freed ==> exists v :: Victim(old(Now()), v) && Now() == Evict(old(Now()), v)
      ensures !freed ==> Now() == old(Now())
    {
      var victim := "";
      freed := false;
      var left := open.Keys;
      while left != {}
        invariant left <= open.Keys
        invariant freed ==> Idle(Now(), victim) && victim !in left
        invariant forall k | Idle(Now(), k) && k !in left ::
                    freed && tenants[open[victim]].lastUse <= tenants[open[k]].lastUse
      {
        var k :| k in left;
        left := left - {k};
        if tenants[open[k]].inFlight > 0 || open[k] == default { continue; }
        if !freed || tenants[open[k]].lastUse < tenants[open[victim]].lastUse {
          victim, freed := k, true;
        }
      }
      if freed {
        assert Victim(Now(), victim);
        var t := open[victim];
        open := open - {victim};
        tenants := tenants[t := tenants[t].(closed := true)];
      }
    }

    /** The first half of a release: only one caller wins. */
    method WinDone(c: nat) returns (won: bool)
      requires Inv(Now()) && c < |claims|
      modifies this
      ensures Inv(Now()) && Now() == Tenants.WinDone(old(Now()), c)
      ensures won <==> old(claims[c].phase) == Held
      ensures claims == if won then old(claims)[c := Claim(old(claims[c].tenant), Dropping)] else old(claims)
    {
      WinDoneKeeps(Now(), c);
      won := claims[c].phase.Held?;
      if won { claims := claims[c := claims[c].(phase := Dropping)]; }
    }

    /** The second half, by the winner. */
    method Drop(c: nat)
      requires Inv(Now()) && c < |claims| && claims[c].phase == Dropping
      modifies this
      ensures Inv(Now()) && Now() == Tenants.Drop(old(Now()), c)
      ensures claims == old(claims)[c := Claim(old(claims[c].tenant), Released)]
      ensures var t := old(claims[c].tenant);
              && t < |old(tenants)| == |tenants| && tenants[t].inFlight == old(tenants)[t].inFlight - 1
              && forall u | 0 <= u < |tenants| && u != t :: tenants[u] == old(tenants)[u]
    {
      DropKeeps(Now(), c);
      var t := claims[c].tenant;
      claims := claims[c := claims[c].(phase := Released)];
      tenants := tenants[t := tenants[t].(inFlight := tenants[t].inFlight - 1)];
    }

    /** The snapshot a detached walk takes: every open tenant claimed once. */
    method Snapshot() returns (ts: seq<nat>)
      requires Inv(Now())
      modifies this
      ensures Inv(Now()) && Roster(old(Now()), ts) && Now() == ClaimEach(old(Now()), ts)
      ensures |tenants| == |old(tenants)| && forall t | 0 <= t < |tenants| ::
                tenants[t].inFlight == old(tenants)[t].inFlight + if t in open.Values then 1 else 0
    {
      ghost var was := Now();
      ts := [];
      var left := open.Keys;
      while left != {}
        invariant Listed(was, ts, left)
        invariant Now() == ClaimEach(was, ts) && open == was.open
      {
        var k :| k in left;
        var t := open[k];
        ListOne(was, ts, left, k);
        left := left - {k};
        ClaimEachSnoc(was, ts, t);
        var claim := MarkBusy(t);
        ts := ts + [t];
      }
      ClaimEachKeeps(was, ts);
      WalkClaimsOnce(was, ts);
    }
  }
}
