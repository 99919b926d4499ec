/** The connectivity checker: one goroutine and one saturating counter per peer container, kept in
    step with the metadata by periodic refreshes. */
module Checker {
  import opened Text

  // ---------------------------------------------------------------- the counter

  const FULL := 3

  function Step(count: nat, success: bool): nat {
    if success then (if count < FULL then count + 1 else count)
    else if count > 0 then count - 1 else count
  }

  /** The counter after the first n checks of a history. */
  function CountAt(history: seq<bool>, n: nat): (c: nat)
    requires n <= |history|
    ensures c <= 3
  {
    if n == 0 then 0 else Step(CountAt(history, n - 1), history[n - 1])
  }

  /** Failures minus successes among the checks i..j. */
  function Surplus(history: seq<bool>, i: nat, j: nat): int
    requires i <= j <= |history|
  {
    if i == j then 0 else Surplus(history, i, j - 1) + if history[j - 1] then -1 else 1
  }

  /** Without reaching 0 the counter falls at least as fast as failures prevail. */
  lemma {:induction false} FallsWithSurplus(history: seq<bool>, i: nat, j: nat)
    requires i <= j <= |history| && forall k :: i <= k < j ==> CountAt(history, k) > 0
    ensures CountAt(history, j) <= CountAt(history, i) - Surplus(history, i, j)
  {
    if i < j { FallsWithSurplus(history, i, j - 1); }
  }

  /** A block of checks with a surplus of three failures drives the counter to 0 within it. */
  lemma BlockDrivesToZero(history: seq<bool>, i: nat, j: nat)
    requires i <= j <= |history| && Surplus(history, i, j) >= 3
    ensures exists k :: i <= k <= j && CountAt(history, k) == 0
  {
    if forall k :: i <= k < j ==> CountAt(history, k) > 0 {
      FallsWithSurplus(history, i, j);
      assert CountAt(history, j) == 0;
    }
  }

  /** Strictly between saturation at both ends the counter is exact. */
  lemma {:induction false} ExactWithoutSaturation(history: seq<bool>, i: nat, j: nat)
    requires i <= j <= |history| && CountAt(history, i) == FULL
    requires forall k :: i < k <= j ==> CountAt(history, k) < FULL
    requires forall k :: i <= k < j ==> CountAt(history, k) > 0
    ensures Surplus(history, i, j) == FULL - CountAt(history, j)
  {
    if i < j {
      ExactWithoutSaturation(history, i, j - 1);
      assert CountAt(history, j) < FULL;
      assert j - 1 > i ==> CountAt(history, j - 1) < FULL;
    }
  }

  /** The last time at FULL in a..b. */
  lemma {:induction false} LastFull(history: seq<bool>, a: nat, b: nat) returns (i: nat)
    requires a <= b <= |history| && CountAt(history, a) == FULL
    ensures a <= i <= b && CountAt(history, i) == FULL && forall k :: i < k <= b ==> CountAt(history, k) < FULL
    decreases b
  {
    if CountAt(history, b) == FULL { return b; }
    i := LastFull(history, a, b - 1);
  }

  /** The first time at 0 in i..b. */
  lemma {:induction false} FirstZero(history: seq<bool>, i: nat, b: nat) returns (j: nat)
    requires i <= b <= |history| && CountAt(history, b) == 0
    ensures i <= j <= b && CountAt(history, j) == 0 && forall k :: i <= k < j ==> CountAt(history, k) > 0
    decreases b - i
  {
    if CountAt(history, i) == 0 { return i; }
    j := FirstZero(history, i + 1, b);
  }

  /** A peer at the full count is later unreachable exactly when, since then, some contiguous block
      of checks had three more failures than successes. */
  lemma UnreachableIffSurplus(history: seq<bool>, a: nat)
    requires a <= |history| && CountAt(history, a) == 3
    ensures (exists b :: a <= b <= |history| && CountAt(history, b) == 0)
            <==> exists i, j :: a <= i <= j <= |history| && Surplus(history, i, j) == 3
  {
    if b: nat :| a <= b <= |history| && CountAt(history, b) == 0 {
      var i := LastFull(history, a, b);
      var j := FirstZero(history, i, b);
      ExactWithoutSaturation(history, i, j);
      assert Surplus(history, i, j) == FULL;
    }
    if i: nat, j: nat :| a <= i <= j <= |history| && Surplus(history, i, j) == FULL {
      BlockDrivesToZero(history, i, j);
    }
  }

  /** Successes raise the counter by one up to 3, failures lower it by one down to 0. */
  lemma CountMoves(history: seq<bool>, n: nat)
    requires n < |history|
    ensures history[n] ==> CountAt(history, n + 1) == if CountAt(history, n) == 3 then 3 else CountAt(history, n) + 1
    ensures !history[n] ==> CountAt(history, n + 1) == if CountAt(history, n) == 0 then 0 else CountAt(history, n) - 1
    ensures CountAt(history, 0) == 0
  {
    assert CountAt(history, n + 1) == Step(CountAt(history, n), history[n]);
  }

  // ---------------------------------------------------------------- peers

  datatype Host = Host(state: string, agentState: string)
  datatype Container = Container(hostUuid: string, primaryIp: string, state: string)

  /** One metadata fetch: hosts and check containers by host, peer containers by container id. */
  datatype Snapshot = Snapshot(ipsecState: string, connCheckState: string, healthcheckEnabled: bool,
                               hosts: map<string, Host>, peerContainers: map<string, Container>,
                               checkContainers: map<string, Container>)

  function Get<V>(m: map<string, V>, k: string): Option<V> { if k in m then Some(m[k]) else None }

  /** What a refresh tells a peer: its container, and its host and check container if listed. */
  datatype View = View(container: Container, host: Option<Host>, check: Option<Container>)

  predicate Considered(v: View) {
    && v.host.Some? && v.check.Some?
    && v.host.value.state == "active" && (v.host.value.agentState == "" || v.host.value.agentState == "active")
    && v.container.state == "running" && v.check.value.state == "running"
  }

  function ViewOf(s: Snapshot, c: Container): View {
    View(c, Get(s.hosts, c.hostUuid), Get(s.checkContainers, c.hostUuid))
  }

  predicate ShouldConsider(s: Snapshot) {
    s.healthcheckEnabled && s.ipsecState == "active" && s.connCheckState == "active"
  }

  /** A peer object: what the metadata says about it, and its counter. */
  datatype Peer = Peer(uuid: string, view: Option<View>, count: nat, lastChecked: Option<int>) {
    predicate Consider() { view.Some? && Considered(view.value) }

    function Succeeded(now: int): Peer { this.(count := Step(count, true), lastChecked := Some(now)) }

    function Failed(now: int): Peer { this.(count := Step(count, false), lastChecked := Some(now)) }

    /** One round of the goroutine probes a considered peer not checked within the interval. */
    predicate Due(now: int, interval: int) {
      Consider() && (lastChecked.None? || now - lastChecked.value >= interval)
    }
  }

  /** A container of the snapshot is considered: it runs, its host is listed and active with an agent
      that is active or says nothing, and the host's check container is listed and runs. */
  predicate ConsideredIn(s: Snapshot, c: Container) {
    && c.state == "running"
    && c.hostUuid in s.hosts && s.hosts[c.hostUuid].state == "active"
    && s.hosts[c.hostUuid].agentState in {"", "active"}
    && c.hostUuid in s.checkContainers && s.checkContainers[c.hostUuid].state == "running"
  }

  /** The peer was told of such a container, and was not checked less than the interval ago. */
  predicate MustCheck(p: Peer, now: int, interval: int) {
    && p.view.Some? && p.view.value.container.state == "running"
    && p.view.value.host.Some? && p.view.value.host.value.state == "active"
    && p.view.value.host.value.agentState in {"", "active"}
    && p.view.value.check.Some? && p.view.value.check.value.state == "running"
    && (p.lastChecked.Some? ==> p.lastChecked.value + interval <= now)
  }

  lemma ConsideredMeans(s: Snapshot, c: Container)
    ensures Considered(ViewOf(s, c)) <==> ConsideredIn(s, c)
  {
  }

  /** The peer objects ever made, by identity, and those whose stop channel is open. A goroutine is
      started with every object. The checker's maps hold identities, as Go's hold pointers. */
  datatype Registry = Registry(table: map<nat, Peer>, size: nat, open: set<nat>)

  type Roster = map<string, nat>

  ghost predicate Sound(reg: Registry) {
    reg.open <= reg.table.Keys && forall h: nat :: h in reg.table <==> h < reg.size
  }

  /** Every value of the roster is a peer filed under its own container id. */
  ghost predicate Owns(reg: Registry, m: Roster) {
    forall u :: u in m ==> m[u] in reg.table && reg.table[m[u]].uuid == u
  }

  predicate Listed(reg: Registry, m: Roster, h: nat)
    requires h in reg.table
  {
    reg.table[h].uuid in m && m[reg.table[h].uuid] == h
  }

  /** Exactly the peers in the two rosters have an open stop channel. */
  ghost predicate Running(reg: Registry, left: Roster, next: Roster) {
    forall h :: h in reg.table ==> (h in reg.open <==> Listed(reg, left, h) || Listed(reg, next, h))
  }

  /** Objects made before keep their counters; the new ones start at 0. */
  ghost predicate Kept(before: Registry, reg: Registry) {
    && before.size <= reg.size
    && (forall h :: h in before.table ==> h in reg.table && reg.table[h] == before.table[h].(view := reg.table[h].view))
    && (forall h :: h in reg.table && h !in before.table ==> reg.table[h].count == 0)
  }

  // ---------------------------------------------------------------- one refresh

  ghost predicate DistinctIps(s: Snapshot) {
    forall u, v :: u in s.peerContainers && v in s.peerContainers && u != v ==>
      s.peerContainers[u].primaryIp != s.peerContainers[v].primaryIp
  }

  /** Some considered peer of the map was never reachable or is no longer. */
  predicate AnyUnreachable(reg: Registry, m: Roster) {
    exists u :: u in m && m[u] in reg.table && reg.table[m[u]].Consider() && reg.table[m[u]].count == 0
  }

  /** A bad verdict names checking that is enabled and an unreachable peer; with distinct addresses
      these always give a bad verdict. */
  ghost predicate JudgedBy(s: Snapshot, reg: Registry, m: Roster, ok: bool) {
    && (!ok ==> ShouldConsider(s) && AnyUnreachable(reg, m))
    && (DistinctIps(s) ==> (!ok <==> ShouldConsider(s) && AnyUnreachable(reg, m)))
  }

  /** The verdict in the snapshot's own fields: good unless health checks are enabled and both services
      active; a bad one names a considered container whose peer has count 0, and with distinct addresses
      such a container gives a bad one. */
  ghost predicate VerdictIs(s: Snapshot, reg: Registry, m: Roster, ok: bool) {
    && (!s.healthcheckEnabled || s.ipsecState != "active" || s.connCheckState != "active" ==> ok)
    && (!ok ==> exists u :: UnreachableIn(s, reg, m, u))
    && (s.healthcheckEnabled && s.ipsecState == "active" && s.connCheckState == "active" && DistinctIps(s) ==>
      (exists u :: UnreachableIn(s, reg, m, u)) ==> !ok)
  }

  predicate UnreachableIn(s: Snapshot, reg: Registry, m: Roster, u: string) {
    && u in s.peerContainers && ConsideredIn(s, s.peerContainers[u])
    && u in m && m[u] in reg.table && reg.table[m[u]].count == 0
  }

  lemma VerdictMeans(s: Snapshot, reg: Registry, m: Roster, ok: bool)
    requires JudgedBy(s, reg, m, ok) && AllCurrent(reg, m, s)
    ensures VerdictIs(s, reg, m, ok)
  {
    forall u | u in m && m[u] in reg.table
      ensures reg.table[m[u]].Consider() && reg.table[m[u]].count == 0 <==> UnreachableIn(s, reg, m, u)
    {
      assert ViewIn(reg, m[u]) == Some(ViewOf(s, s.peerContainers[u]));
      ConsideredMeans(s, s.peerContainers[u]);
    }
    if u :| UnreachableIn(s, reg, m, u) {
      assert reg.table[m[u]].Consider();
    }
  }

  /** The peers carry what the snapshot says about their containers. */
  ghost predicate AllCurrent(reg: Registry, next: Roster, s: Snapshot) {
    forall u :: u in next ==> u in s.peerContainers && ViewIn(reg, next[u]) == Some(ViewOf(s, s.peerContainers[u]))
  }

  function ViewIn(reg: Registry, h: nat): Option<View> { if h in reg.table then reg.table[h].view else None }

  /** Peers listed before are kept; all others are new. */
  ghost predicate Taken(before: Registry, peers: Roster, next: Roster) {
    forall u :: u in next ==> if u in peers then next[u] == peers[u] else next[u] >= before.size
  }

  /** The index holds, for each address, one of the peers with that address. */
  ghost predicate IndexesByIp(s: Snapshot, reg: Registry, next: Roster, byIp: Roster) {
    && (forall u :: u in next ==> u in s.peerContainers && s.peerContainers[u].primaryIp in byIp)
    && (forall ip :: ip in byIp ==> Points(s, reg, next, ip, byIp[ip]))
  }

  predicate Points(s: Snapshot, reg: Registry, next: Roster, ip: string, h: nat) {
    h in reg.table && Listed(reg, next, h) && reg.table[h].uuid in s.peerContainers
      && s.peerContainers[reg.table[h].uuid].primaryIp == ip
  }

  /** The state of the loop over a snapshot's containers: `left` are the peers not met yet. */
  ghost predicate Taking(before: Registry, peers: Roster, s: Snapshot, reg: Registry, left: Roster, next: Roster) {
    && Sound(reg) && Owns(reg, left) && Owns(reg, next) && Running(reg, left, next)
    && left == peers - next.Keys && Kept(before, reg) && AllCurrent(reg, next, s) && Taken(before, peers, next)
  }

  /** The peer of a container, known or new, with what the snapshot says about it. */
  function TakePeer(reg: Registry, left: Roster, uuid: string, view: View): (r: (Registry, nat))
    requires Owns(reg, left)
  {
    if uuid in left then
      (reg.(table := reg.table[left[uuid] := reg.table[left[uuid]].(view := Some(view))]), left[uuid])
    else
      (Registry(reg.table[reg.size := Peer(uuid, Some(view), 0, None)], reg.size + 1, reg.open + {reg.size}), reg.size)
  }

  lemma TakePeerKeeps(before: Registry, peers: Roster, s: Snapshot, reg: Registry, left: Roster, next: Roster,
                      uuid: string)
    requires Sound(before) && Taking(before, peers, s, reg, left, next) && uuid in s.peerContainers && uuid !in next
    ensures var (reg', h) := TakePeer(reg, left, uuid, ViewOf(s, s.peerContainers[uuid]));
      Taking(before, peers, s, reg', left - {uuid}, next[uuid := h])
  {
    var (reg', h) := TakePeer(reg, left, uuid, ViewOf(s, s.peerContainers[uuid]));
    assert left - {uuid} == peers - next[uuid := h].Keys;
    TakenTable(reg, left, uuid, ViewOf(s, s.peerContainers[uuid]));
    TakenRuns(reg, left, next, uuid, reg', h);
    TakenIsCurrent(before, peers, s, reg, left, next, uuid, reg', h);
  }

  /** What a taken peer keeps: its counter, the snapshot's view, and its identity. */
  lemma TakenIsCurrent(before: Registry, peers: Roster, s: Snapshot, reg: Registry, left: Roster, next: Roster,
                       uuid: string, reg': Registry, h: nat)
    requires uuid in s.peerContainers && uuid !in next && left == peers - next.Keys && reg.size <= reg'.size
    requires Kept(before, reg) && AllCurrent(reg, next, s) && Taken(before, peers, next) && Owns(reg, next)
    requires SameBut(reg, reg', h) && h in reg'.table && reg'.table[h].uuid == uuid
    requires reg'.table[h].view == Some(ViewOf(s, s.peerContainers[uuid]))
    requires if uuid in left then h == left[uuid] && h in reg.table
             else h == reg.size && h !in reg.table && reg'.table[h].count == 0
    requires h in reg.table ==> reg'.table[h] == reg.table[h].(view := reg'.table[h].view)
    requires h in before.table ==> h in reg.table
    ensures Kept(before, reg') && AllCurrent(reg', next[uuid := h], s) && Taken(before, peers, next[uuid := h])
  {
    forall u | u in next ensures ViewIn(reg', next[u]) == ViewIn(reg, next[u]) {
      assert next[u] in reg.table && reg.table[next[u]].uuid == u;
    }
  }

  /** The table changes at the peer taken only, and there only in its view unless it is new. */
  lemma TakenTable(reg: Registry, left: Roster, uuid: string, view: View)
    requires Sound(reg) && Owns(reg, left)
    ensures var (reg', h) := TakePeer(reg, left, uuid, view);
      && Sound(reg') && SameBut(reg, reg', h) && h in reg'.table && reg'.table[h].uuid == uuid
        && reg'.table[h].view == Some(view)
      && (if uuid in left then h == left[uuid] else h == reg.size && reg'.table[h].count == 0)
      && (h in reg.table ==> reg'.table[h] == reg.table[h].(view := Some(view)))
      && reg'.open == (if uuid in left then reg.open else reg.open + {h})
  {
  }

  ghost predicate SameBut(reg: Registry, reg': Registry, h: nat) {
    && reg'.table.Keys == reg.table.Keys + {h}
    && forall g :: g in reg.table && g != h ==> reg'.table[g] == reg.table[g]
  }

  lemma TakenRuns(reg: Registry, left: Roster, next: Roster, uuid: string, reg': Registry, h: nat)
    requires Owns(reg, left) && Owns(reg, next) && Running(reg, left, next) && uuid !in next
    requires SameBut(reg, reg', h) && h in reg'.table && reg'.table[h].uuid == uuid
    requires if uuid in left then h == left[uuid] else h !in reg.table
    requires reg'.open == if uuid in left then reg.open else reg.open + {h}
    ensures Owns(reg', left - {uuid}) && Owns(reg', next[uuid := h]) && Running(reg', left - {uuid}, next[uuid := h])
  {
    forall g | g in reg'.table
      ensures g in reg'.open <==> Listed(reg', left - {uuid}, g) || Listed(reg', next[uuid := h], g) {
      if g == h {
        assert uuid in left ==> Listed(reg, left, h);
      } else {
        assert g in reg.table && (g in reg.open <==> Listed(reg, left, g) || Listed(reg, next, g));
      }
    }
  }

  lemma IndexExtends(s: Snapshot, reg: Registry, next: Roster, byIp: Roster, uuid: string, reg': Registry, h: nat)
    requires IndexesByIp(s, reg, next, byIp) && uuid in s.peerContainers && uuid !in next
    requires SameBut(reg, reg', h) && h in reg'.table && reg'.table[h].uuid == uuid
      && (h in reg.table ==> reg.table[h].uuid == uuid)
    ensures IndexesByIp(s, reg', next[uuid := h], byIp[s.peerContainers[uuid].primaryIp := h])
  {
    var next', ip' := next[uuid := h], s.peerContainers[uuid].primaryIp;
    var byIp' := byIp[ip' := h];
    forall ip | ip in byIp' ensures Points(s, reg', next', ip, byIp'[ip]) {
      if ip != ip' { assert Points(s, reg, next, ip, byIp[ip]); }
    }
  }

  /** What the index shows holds of the peers; with distinct addresses no peer is missing from it. */
  lemma IndexShowsPeers(s: Snapshot, reg: Registry, next: Roster, byIp: Roster)
    requires IndexesByIp(s, reg, next, byIp)
    ensures AnyUnreachable(reg, byIp) ==> AnyUnreachable(reg, next)
    ensures DistinctIps(s) ==> (AnyUnreachable(reg, byIp) <==> AnyUnreachable(reg, next))
  {
    if AnyUnreachable(reg, byIp) {
      var ip :| ip in byIp && byIp[ip] in reg.table && reg.table[byIp[ip]].Consider() && reg.table[byIp[ip]].count == 0;
      var u := reg.table[byIp[ip]].uuid;
      assert u in next && next[u] == byIp[ip];
    }
    if DistinctIps(s) && AnyUnreachable(reg, next) {
      var u :| u in next && next[u] in reg.table && reg.table[next[u]].Consider() && reg.table[next[u]].count == 0;
      var ip := s.peerContainers[u].primaryIp;
      var v := reg.table[byIp[ip]].uuid;
      assert v in next && next[v] == byIp[ip] && v == u;
    }
  }

  lemma CloseKeeps(reg: Registry, left: Roster, kept: Roster, uuid: string)
    requires Sound(reg) && Owns(reg, left) && Owns(reg, kept) && Running(reg, left, kept) && left.Keys !! kept.Keys
      && uuid in left
    ensures left[uuid] in reg.open
    ensures var reg' := reg.(open := reg.open - {left[uuid]});
      Sound(reg') && Owns(reg', left - {uuid}) && Owns(reg', kept) && Running(reg', left - {uuid}, kept)
  {
    var reg' := reg.(open := reg.open - {left[uuid]});
    assert Listed(reg, left, left[uuid]);
    forall h | h in reg'.table ensures h in reg'.open <==> Listed(reg', left - {uuid}, h) || Listed(reg', kept, h) {
      assert h in reg.open <==> Listed(reg, left, h) || Listed(reg, kept, h);
    }
  }

  method ComputeOk(s: Snapshot, reg: Registry, byIp: Roster) returns (verdict: bool)
    ensures verdict <==> !(ShouldConsider(s) && AnyUnreachable(reg, byIp))
  {
    if !ShouldConsider(s) { return true; }
    var rest := byIp.Keys;
    while rest != {}
      invariant rest <= byIp.Keys
      invariant forall ip :: ip in byIp && ip !in rest ==>
        !(byIp[ip] in reg.table && reg.table[byIp[ip]].Consider() && reg.table[byIp[ip]].count == 0)
    {
      var ip :| ip in rest;
      rest := rest - {ip};
      var h := byIp[ip];
      if h in reg.table && reg.table[h].Consider() && reg.table[h].count == 0 { return false; }
    }
    return true;
  }

  /** Closing channels leaves everything else as the loop left it. */
  lemma StoppedKeeps(before: Registry, peers: Roster, s: Snapshot, reg: Registry, left: Roster, next: Roster,
                     byIp: Roster, reg': Registry)
    requires Taking(before, peers, s, reg, left, next) && IndexesByIp(s, reg, next, byIp)
    requires reg'.table == reg.table && reg'.size == reg.size
    ensures Owns(reg', next) && Kept(before, reg') && AllCurrent(reg', next, s) && IndexesByIp(s, reg', next, byIp)
    ensures forall ip :: ip in byIp ==> byIp[ip] in reg'.table
  {
    forall ip | ip in byIp ensures Points(s, reg', next, ip, byIp[ip]) { assert Points(s, reg, next, ip, byIp[ip]); }
  }

  // ---------------------------------------------------------------- the checker

  class Checker {
    var peers: Roster
    var peersByIp: Roster
    var reg: Registry
    var ok: bool
    /** Every peer's checks so far. */
    ghost var histories: map<nat, seq<bool>>

    constructor ()
      ensures Valid() && peers == map[] && ok && reg == Registry(map[], 0, {})
    {
      peers, peersByIp, reg, ok, histories := map[], map[], Registry(map[], 0, {}), true, map[];
    }

    /** The goroutines whose stop channel is open are exactly those of the listed peers, and every
        counter is the outcome of the peer's own history. */
    ghost predicate Valid()
      reads this
    {
      && Sound(reg) && Owns(reg, peers) && Running(reg, peers, map[])
      && (forall ip :: ip in peersByIp ==> peersByIp[ip] in reg.table)
      && Counted(reg, histories)
    }

    /** doWork. A failed fetch changes nothing. A successful refresh keeps the peers it still lists
        with their counters, starts one goroutine for every new peer, closes the stop channel of
        every other one, once, and settles the verdict. */
    method DoWork(fetched: Option<Snapshot>)
      requires Valid()
      modifies this
      ensures Valid() && Kept(old(reg), reg)
      ensures Preserves(old(histories), histories)
      ensures fetched.None? ==> unchanged(this)
      ensures fetched.Some? ==> peers.Keys == fetched.value.peerContainers.Keys
      ensures fetched.Some? ==> AllCurrent(reg, peers, fetched.value) && Taken(old(reg), old(peers), peers)
      ensures fetched.Some? ==> JudgedBy(fetched.value, reg, peers, ok) && VerdictIs(fetched.value, reg, peers, ok)
    {
      if fetched.Some? {
        Refresh(fetched.value);
        VerdictMeans(fetched.value, reg, peers, ok);
      }
    }

    method Refresh(s: Snapshot)
      requires Valid()
      modifies this
      ensures Valid() && Kept(old(reg), reg) && Preserves(old(histories), histories)
      ensures peers.Keys == s.peerContainers.Keys && AllCurrent(reg, peers, s) && Taken(old(reg), old(peers), peers)
      ensures JudgedBy(s, reg, peers, ok)
    {
      ReplacePeers(s);
      Judge(s);
    }

    /** The part of a refresh that settles the verdict. */
    method Judge(s: Snapshot)
      requires Valid() && IndexesByIp(s, reg, peers, peersByIp)
      modifies this`ok
      ensures Valid() && JudgedBy(s, reg, peers, ok)
    {
      ok := ComputeOk(s, reg, peersByIp);
      IndexShowsPeers(s, reg, peers, peersByIp);
    }

    /** The part of a refresh that changes the peers. */
    method ReplacePeers(s: Snapshot)
      requires Valid()
      modifies this`peers, this`peersByIp, this`reg, this`histories
      ensures Valid() && Kept(old(reg), reg) && Preserves(old(histories), histories)
      ensures peers.Keys == s.peerContainers.Keys && AllCurrent(reg, peers, s) && Taken(old(reg), old(peers), peers)
      ensures IndexesByIp(s, reg, peers, peersByIp)
    {
      var next, byIp := TakePeers(s);
      ghost var taken, left := reg, peers;
      StopStale(next);
      StoppedKeeps(old(reg), old(peers), s, taken, left, next, byIp, reg);
      CountedAfter(old(reg), reg, histories);
      peers, peersByIp, histories := next, byIp, WithNew(histories, reg);
    }

    /** The loop over the snapshot's containers: listed peers move from `peers` to the result. */
    method TakePeers(s: Snapshot) returns (next: Roster, byIp: Roster)
      requires Valid()
      modifies this`peers, this`reg
      ensures Taking(old(reg), old(peers), s, reg, peers, next) && IndexesByIp(s, reg, next, byIp)
      ensures next.Keys == s.peerContainers.Keys
    {
      next, byIp := map[], map[];
      var rest := s.peerContainers.Keys;
      assert peers == peers - {};
      while rest != {}
        invariant rest <= s.peerContainers.Keys && next.Keys == s.peerContainers.Keys - rest
        invariant Taking(old(reg), old(peers), s, reg, peers, next) && IndexesByIp(s, reg, next, byIp)
      {
        var uuid :| uuid in rest;
        TakePeerKeeps(old(reg), old(peers), s, reg, peers, next, uuid);
        var (reg', current) := TakePeer(reg, peers, uuid, ViewOf(s, s.peerContainers[uuid]));
        TakenTable(reg, peers, uuid, ViewOf(s, s.peerContainers[uuid]));
        IndexExtends(s, reg, next, byIp, uuid, reg', current);
        next := next[uuid := current];
        byIp := byIp[s.peerContainers[uuid].primaryIp := current];
        reg, peers, rest := reg', peers - {uuid}, rest - {uuid};
      }
    }

    /** Closing a closed channel would panic. */
    method Close(h: nat)
      requires h in reg.open
      modifies this`reg
      ensures reg == old(reg).(open := old(reg).open - {h})
    {
      reg := reg.(open := reg.open - {h});
    }

    /** The peers that are no longer listed: each stop channel is still open, and is closed. */
    method StopStale(ghost kept: Roster)
      requires Sound(reg) && Owns(reg, peers) && Owns(reg, kept) && Running(reg, peers, kept) && peers.Keys !! kept.Keys
      modifies this`reg
      ensures Sound(reg) && Running(reg, kept, map[]) && reg.table == old(reg).table && reg.size == old(reg).size
    {
      var left := peers;
      while left != map[]
        invariant left.Keys <= peers.Keys && reg.table == old(reg).table && reg.size == old(reg).size
        invariant Sound(reg) && Owns(reg, left) && Owns(reg, kept) && Running(reg, left, kept)
        decreases left.Keys
      {
        var uuid :| uuid in left;
        CloseKeeps(reg, left, kept, uuid);
        Close(left[uuid]);
        left := left - {uuid};
      }
    }

    /** Records one check of a peer, as UpdateSuccess and updateFailure do. */
    method Update(h: nat, success: bool, now: int)
      requires Valid() && h in reg.table
      modifies this`reg, this`histories
      ensures Valid() && histories == old(histories)[h := old(histories)[h] + [success]]
      ensures reg.open == old(reg).open
        && reg.table == old(reg).table[h := if success then old(reg).table[h].Succeeded(now)
                                               else old(reg).table[h].Failed(now)]
      ensures reg.table[h].lastChecked == Some(now) && reg.table[h].view == old(reg).table[h].view
    {
      var p := reg.table[h];
      CountStep(histories[h], success);
      UpdateKeeps(reg, peers, h, if success then p.Succeeded(now) else p.Failed(now));
      histories := histories[h := histories[h] + [success]];
      reg := reg.(table := reg.table[h := if success then p.Succeeded(now) else p.Failed(now)]);
    }

    /** One round of a peer's goroutine. */
    method PeerRound(h: nat, now: int, interval: int, reachable: bool)
      requires Valid() && h in reg.table
      modifies this`reg, this`histories
      ensures Valid()
      ensures histories == if old(reg).table[h].Due(now, interval)
        then old(histories)[h := old(histories)[h] + [reachable]] else old(histories)
      ensures MustCheck(old(reg).table[h], now, interval) ==>
        histories[h] == old(histories)[h] + [reachable] && reg.table[h].lastChecked == Some(now)
      ensures !MustCheck(old(reg).table[h], now, interval) ==> histories == old(histories) && reg == old(reg)
    {
      if reg.table[h].Due(now, interval) { Update(h, reachable, now); }
    }

    /** A ping from a known peer counts as a successful check of it. */
    method Ping(sourceIp: string, now: int)
      requires Valid()
      modifies this`reg, this`histories
      ensures Valid()
      ensures histories == if sourceIp in peersByIp
        then old(histories)[peersByIp[sourceIp] := old(histories)[peersByIp[sourceIp]] + [true]] else old(histories)
    {
      if sourceIp in peersByIp { Update(peersByIp[sourceIp], true, now); }
    }
  }

  ghost predicate Preserves(before: map<nat, seq<bool>>, after: map<nat, seq<bool>>) {
    forall h :: h in before ==> h in after && after[h] == before[h]
  }

  lemma UpdateKeeps(reg: Registry, peers: Roster, h: nat, p: Peer)
    requires Sound(reg) && Owns(reg, peers) && Running(reg, peers, map[]) && h in reg.table
      && p.uuid == reg.table[h].uuid
    ensures var reg' := reg.(table := reg.table[h := p]);
      Sound(reg') && Owns(reg', peers) && Running(reg', peers, map[])
  {
    var reg' := reg.(table := reg.table[h := p]);
    forall g | g in reg'.table ensures g in reg'.open <==> Listed(reg', peers, g) || Listed(reg', map[], g) {
      assert g in reg.table && (g in reg.open <==> Listed(reg, peers, g) || Listed(reg, map[], g));
    }
  }

  /** Every counter is the outcome of the peer's own history. */
  ghost predicate Counted(reg: Registry, histories: map<nat, seq<bool>>) {
    && histories.Keys == reg.table.Keys
    && forall h :: h in reg.table ==> reg.table[h].count == CountAt(histories[h], |histories[h]|)
  }

  ghost function WithNew(histories: map<nat, seq<bool>>, reg: Registry): map<nat, seq<bool>> {
    histories + map h | h in reg.table && h !in histories :: []
  }

  lemma CountedAfter(before: Registry, reg: Registry, histories: map<nat, seq<bool>>)
    requires Counted(before, histories) && Kept(before, reg)
    ensures Counted(reg, WithNew(histories, reg)) && Preserves(histories, WithNew(histories, reg))
  {
    assert CountAt([], 0) == 0;
  }

  lemma CountStep(history: seq<bool>, success: bool)
    ensures CountAt(history + [success], |history| + 1) == Step(CountAt(history, |history|), success)
  {
    PrefixCount(history, history + [success], |history|);
  }

  lemma {:induction false} PrefixCount(a: seq<bool>, b: seq<bool>, n: nat)
    requires n <= |a| && a <= b
    ensures CountAt(a, n) == CountAt(b, n)
  {
    if n > 0 { PrefixCount(a, b, n - 1); }
  }
}
