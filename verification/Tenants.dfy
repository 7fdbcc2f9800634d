/** Tenant claims and eviction.

A request claims its tenant under the server lock and gives the claim up in two steps: it wins the
claim's done flag, then lowers the in-flight count. Eviction closes the least recently used tenant
nobody claims. Every tenant ever opened keeps its number, so a closed one can be told from a
reopened one. */
module Tenants {

  type Key = string

  datatype Tenant = Tenant(inFlight: int, lastUse: int, closed: bool)

  /** Held, or done flag won and count not lowered yet, or released. */
  datatype Phase = Held | Dropping | Released

  datatype Claim = Claim(tenant: nat, phase: Phase)

  /** limit UNLIMITED bounds nothing. */
  datatype State = State(open: map<Key, nat>, tenants: seq<Tenant>, claims: seq<Claim>, default: nat, limit: int)

  const UNLIMITED: int := -1

  function Live(c: Claim, t: nat): nat {
    if c.tenant == t && c.phase != Released then 1 else 0
  }

  /** How many unreleased claims a tenant has. */
  function Claims(claims: seq<Claim>, t: nat): nat {
    if claims == [] then 0 else Claims(claims[..|claims| - 1], t) + Live(claims[|claims| - 1], t)
  }

  // ------------------------------------------------------------------ the invariant

  ghost predicate OpenOnce(s: State) {
    && (forall k | k in s.open :: s.open[k] < |s.tenants| && !s.tenants[s.open[k]].closed)
    && (forall j, k | j in s.open && k in s.open && s.open[j] == s.open[k] :: j == k)
  }

  ghost predicate Counted(s: State) {
    && (forall i | 0 <= i < |s.claims| :: s.claims[i].tenant < |s.tenants|)
    && (forall t | 0 <= t < |s.tenants| :: s.tenants[t].inFlight == Claims(s.claims, t))
    && (forall t | 0 <= t < |s.tenants| && s.tenants[t].closed :: s.tenants[t].inFlight == 0)
  }

  ghost predicate DefaultOpen(s: State) {
    exists k :: k in s.open && s.open[k] == s.default
  }

  /** In-flight counts are the unreleased claims, nothing claimed is closed, the default tenant is
      open, and a positive limit is kept. */
  ghost predicate Inv(s: State) {
    OpenOnce(s) && Counted(s) && DefaultOpen(s) && (s.limit >= 1 ==> |s.open| <= s.limit)
  }

  // ------------------------------------------------------------------ steps

  function AddClaim(s: State, t: nat): State
    requires t < |s.tenants|
  {
    s.(tenants := s.tenants[t := s.tenants[t].(inFlight := s.tenants[t].inFlight + 1)],
       claims := s.claims + [Claim(t, Held)])
  }

  function Touch(s: State, t: nat, now: int): State
    requires t < |s.tenants|
  {
    s.(tenants := s.tenants[t := s.tenants[t].(lastUse := now)])
  }

  predicate Idle(s: State, k: Key) {
    k in s.open && s.open[k] < |s.tenants| && s.tenants[s.open[k]].inFlight <= 0 && s.open[k] != s.default
  }

  /** Idle, and used no later than any other idle one. */
  ghost predicate Victim(s: State, k: Key) {
    Idle(s, k) && forall j | Idle(s, j) :: s.tenants[s.open[k]].lastUse <= s.tenants[s.open[j]].lastUse
  }

  function Evict(s: State, k: Key): State
    requires k in s.open && s.open[k] < |s.tenants|
  {
    var t := s.open[k];
    s.(open := s.open - {k}, tenants := s.tenants[t := s.tenants[t].(closed := true)])
  }

  function Open(s: State, k: Key, now: int): State {
    AddClaim(s.(open := s.open[k := |s.tenants|], tenants := s.tenants + [Tenant(0, now, false)]), |s.tenants|)
  }

  predicate Full(s: State) {
    s.limit != UNLIMITED && |s.open| >= s.limit
  }

  /** Claiming a tenant, with or without evicting one and with the store opening or failing to open. */
  ghost predicate AcquireStep(s: State, k: Key, now: int, s': State) {
    if k in s.open then s.open[k] < |s.tenants| && s' == AddClaim(Touch(s, s.open[k], now), s.open[k])
    else if !Full(s) then s' == Open(s, k, now) || s' == s
    else if exists v :: Victim(s, v) then exists v :: Victim(s, v) && (s' == Open(Evict(s, v), k, now) || s' == Evict(s, v))
    else s' == s
  }

  /** The done flag is won at most once. */
  function WinDone(s: State, c: nat): State
    requires c < |s.claims|
  {
    if s.claims[c].phase.Held? then s.(claims := s.claims[c := s.claims[c].(phase := Dropping)]) else s
  }

  /** Whoever won the flag lowers the count. */
  function Drop(s: State, c: nat): State
    requires c < |s.claims| && s.claims[c].tenant < |s.tenants|
  {
    var t := s.claims[c].tenant;
    if s.claims[c].phase.Dropping? then
      s.(claims := s.claims[c := s.claims[c].(phase := Released)],
         tenants := s.tenants[t := s.tenants[t].(inFlight := s.tenants[t].inFlight - 1)])
    else s
  }

  /** A detached walk claims every open tenant while it holds the lock. */
  function ClaimEach(s: State, ts: seq<nat>): (r: State)
    requires forall i | 0 <= i < |ts| :: ts[i] < |s.tenants|
    ensures |r.tenants| == |s.tenants|
    decreases |ts|
  {
    if ts == [] then s
    else
      var more := ClaimEach(s, ts[..|ts| - 1]);
      AddClaim(more, ts[|ts| - 1])
  }

  /** Every open tenant once, in some order. */
  ghost predicate Roster(s: State, ts: seq<nat>) {
    && (forall i | 0 <= i < |ts| :: ts[i] < |s.tenants| && ts[i] in s.open.Values)
    && (forall i, j | 0 <= i < j < |ts| :: ts[i] != ts[j])
    && (forall k | k in s.open :: s.open[k] in ts)
  }

  ghost predicate WalkStep(s: State, s': State) {
    exists ts: seq<nat> :: Roster(s, ts) && s' == ClaimEach(s, ts)
  }

  ghost predicate Step(s: State, s': State) {
    || (exists k, now :: AcquireStep(s, k, now, s'))
    || (exists c: nat :: c < |s.claims| && s' == WinDone(s, c))
    || (exists c: nat :: c < |s.claims| && s.claims[c].tenant < |s.tenants| && s' == Drop(s, c))
    || WalkStep(s, s')
  }

  ghost predicate Init(s: State) {
    && |s.tenants| == 1 && s.tenants[0].inFlight == 0 && !s.tenants[0].closed
    && s.claims == [] && s.default == 0
    && exists k :: s.open == map[k := 0]
  }
}
