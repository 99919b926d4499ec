/** Which IKE SAs may be killed after a local address change. The overlay caches a fingerprint
    of every connection it loaded itself (`hosts`) and, when it replaces one because the local
    address moved, keeps one-shot authority over the former address (`staleLocal`). The module
    defines the protocol as a machine over its steps and proves what every run keeps. */
module Ownership {
  import opened Text
  import opened Vici
  import opened ChildNames

  // ---------------------------------------------------------------- data

  datatype ChildConf = ChildConf(reqId: string, espProposals: seq<string>, rekeyTime: string, other: string)

  /** `other` stands for the template fields the overlay passes through unread. */
  datatype IkeConf = IkeConf(localAddrs: seq<string>, remoteAddrs: seq<string>, proposals: seq<string>,
                             authMethod: string, localId: string, children: map<string, ChildConf>,
                             unique: string, other: string)

  datatype Identity = Identity(templateRevision: string, localAgentIp: string, localTunnelIp: string,
                               hostTunnelSource: bool, connection: IkeConf)

  /** A cached fingerprint: the JSON encoding of an identity, which decodes to that identity,
      or text that does not decode, such as the "" of a discovered connection. */
  datatype Fingerprint = Foreign(text: string) | Encoded(identity: Identity)

  type Hosts = map<string, Fingerprint>
  type Authority = map<string, map<string, string>>

  datatype State = State(hosts: Hosts, stale: Authority)

  /** A map read in Go: a missing key reads as "". */
  function Known(hosts: Hosts, remote: string): Fingerprint {
    if remote in hosts then hosts[remote] else Foreign("")
  }

  ghost predicate Holds(stale: Authority, remote: string, addr: string, identity: string) {
    remote in stale && addr in stale[remote] && stale[remote][addr] == identity
  }

  // ---------------------------------------------------------------- the desired connection

  datatype Templates = Templates(ike: IkeConf, child: ChildConf, revision: string)

  predicate Blacklisted(algo: string, blacklist: seq<string>) {
    exists i :: 0 <= i < |blacklist| && blacklist[i] <= algo
  }

  /** The algorithms without a blacklisted prefix, in template order. */
  function Allowed(algos: seq<string>, blacklist: seq<string>): seq<string> {
    if algos == [] then []
    else
      var front, last := Allowed(algos[..|algos| - 1], blacklist), algos[|algos| - 1];
      if Blacklisted(last, blacklist) then front else front + [last]
  }

  /** Exactly the algorithms that no blacklist entry is a prefix of. */
  lemma {:induction false} AllowedElements(algos: seq<string>, blacklist: seq<string>)
    ensures forall a :: a in Allowed(algos, blacklist) <==> a in algos && forall p :: p in blacklist ==> !(p <= a)
  {
    if algos != [] {
      AllowedElements(algos[..|algos| - 1], blacklist);
      assert algos == algos[..|algos| - 1] + [algos[|algos| - 1]];
      forall a ensures Blacklisted(a, blacklist) <==> exists p :: p in blacklist && p <= a {
        if Blacklisted(a, blacklist) {
          var i :| 0 <= i < |blacklist| && blacklist[i] <= a;
          assert blacklist[i] in blacklist;
        }
      }
    }
  }

  /** The filter drops a prefixed algorithm, keeps the others, and keeps their order and repetitions. */
  lemma AllowedAppends(algos: seq<string>, blacklist: seq<string>, a: string)
    ensures Allowed(algos + [a], blacklist) ==
            Allowed(algos, blacklist) + if exists p :: p in blacklist && p <= a then [] else [a]
  {
    var more := algos + [a];
    assert more[..|algos|] == algos && more[|algos|] == a;
    if Blacklisted(a, blacklist) {
      var i :| 0 <= i < |blacklist| && blacklist[i] <= a;
      assert blacklist[i] in blacklist;
    }
  }

  method FilterAlgorithms(algos: seq<string>, blacklist: seq<string>) returns (result: seq<string>)
    ensures result == Allowed(algos, blacklist)
    ensures forall a :: a in result <==> a in algos && forall p :: p in blacklist ==> !(p <= a)
  {
    AllowedElements(algos, blacklist);
    result := [];
    for i := 0 to |algos|
      invariant result == Allowed(algos[..i], blacklist)
    {
      var ignored := false;
      for j := 0 to |blacklist|
        invariant !ignored && forall k :: 0 <= k < j ==> !(blacklist[k] <= algos[i])
      {
        if blacklist[j] <= algos[i] { ignored := true; break; }
      }
      assert algos[..i + 1][..i] == algos[..i];
      if !ignored { result := result + [algos[i]]; }
    }
    assert algos[..|algos|] == algos;
  }

  function Desired(t: Templates, blacklist: seq<string>, agentIp: string, tunnelIp: string, remote: string,
                   hostTunnel: bool): Identity {
    var child := t.child.(espProposals := Allowed(t.child.espProposals, blacklist), reqId := REQ_ID,
                          rekeyTime := if Less(remote, agentIp) then "8760h" else t.child.rekeyTime);
    var conf := t.ike.(proposals := Allowed(t.ike.proposals, blacklist),
                       localAddrs := if hostTunnel then [tunnelIp] else t.ike.localAddrs,
                       remoteAddrs := [remote], children := map["child-" + remote := child]);
    Identity(t.revision, agentIp, tunnelIp, hostTunnel, conf)
  }

  method HostConnectionConfig(t: Templates, blacklist: seq<string>, agentIp: string, tunnelIp: string, remote: string,
                              hostTunnel: bool)
    returns (identity: Identity)
    ensures identity == Desired(t, blacklist, agentIp, tunnelIp, remote, hostTunnel)
    ensures var conf := identity.connection;
      && conf.remoteAddrs == [remote] && conf.localAddrs == (if hostTunnel then [tunnelIp] else t.ike.localAddrs)
      && conf.children.Keys == {"child-" + remote} && conf.children["child-" + remote].reqId == "1234"
  {
    var esp := FilterAlgorithms(t.child.espProposals, blacklist);
    var child := t.child.(espProposals := esp, reqId := REQ_ID);
    if Less(remote, agentIp) { child := child.(rekeyTime := "8760h"); }
    var proposals := FilterAlgorithms(t.ike.proposals, blacklist);
    var conf := t.ike.(proposals := proposals);
    if hostTunnel { conf := conf.(localAddrs := [tunnelIp]); }
    conf := conf.(remoteAddrs := [remote], children := map["child-" + remote := child]);
    identity := Identity(t.revision, agentIp, tunnelIp, hostTunnel, conf);
  }

  // ---------------------------------------------------------------- authority

  function AuthorityIdentity(previous: Identity): string {
    if previous.connection.localId == "" then previous.localAgentIp else previous.connection.localId
  }

  /** Replacing `previous` by `current` proves ownership of the previous local address. */
  predicate Authorizes(isIp: string -> bool, remote: string, previous: Identity, current: Identity) {
    && previous.hostTunnelSource && current.hostTunnelSource
    && previous.localAgentIp != current.localAgentIp && isIp(previous.localAgentIp) && isIp(current.localAgentIp)
    && previous.connection.localAddrs == [previous.localAgentIp]
    && previous.connection.remoteAddrs == [remote]
    && previous.connection.authMethod == "psk"
    && |previous.connection.children| == 1
    && "child-" + remote in previous.connection.children
    && previous.connection.children["child-" + remote].reqId == REQ_ID
    && !("%" <= AuthorityIdentity(previous))
  }

  function Queue(isIp: string -> bool, stale: Authority, remote: string, previous: Fingerprint,
                 current: Identity): Authority {
    if previous.Encoded? && Authorizes(isIp, remote, previous.identity, current) then
      var held := if remote in stale then stale[remote] else map[];
      stale[remote := held[previous.identity.localAgentIp := AuthorityIdentity(previous.identity)]]
    else stale
  }

  /** In host-tunnel mode a change of the local address yields authority over the former one
      exactly when both addresses are addresses, the templates authenticate by pre-shared key, and
      the identity is no strongSwan expression: the overlay's own fingerprints meet all the
      structural conditions. */
  lemma AddressChangeIsAuthorized(isIp: string -> bool, remote: string, t: Templates, b: seq<string>, former: string,
                                  t': Templates, b': seq<string>, current: string)
    requires former != current
    ensures var previous := Desired(t, b, former, former, remote, true);
      Authorizes(isIp, remote, previous, Desired(t', b', current, current, remote, true)) <==>
        isIp(former) && isIp(current) && t.ike.authMethod == "psk" && !("%" <= AuthorityIdentity(previous))
  {
    var previous := Desired(t, b, former, former, remote, true);
    assert "child-" + remote in previous.connection.children && |previous.connection.children| == 1;
  }

  /** Two templates and blacklists yield the same connection in all that is not set by the overlay. */
  predicate SameTemplates(t: Templates, b: seq<string>, t': Templates, b': seq<string>, keepsRekey: bool,
                          keepsLocal: bool) {
    && t.revision == t'.revision
    && Allowed(t.ike.proposals, b) == Allowed(t'.ike.proposals, b')
    && Allowed(t.child.espProposals, b) == Allowed(t'.child.espProposals, b')
    && (keepsLocal ==> t.ike.localAddrs == t'.ike.localAddrs)
    && (keepsRekey ==> t.child.rekeyTime == t'.child.rekeyTime)
    && t.ike.authMethod == t'.ike.authMethod && t.ike.localId == t'.ike.localId
    && t.ike.unique == t'.ike.unique && t.ike.other == t'.ike.other && t.child.other == t'.child.other
  }

  /** After such a change the former address is held, under the template's identity or, without one, the
      former address itself. */
  lemma AddressChangeIsHeld(isIp: string -> bool, s: State, remote: string, t: Templates, b: seq<string>,
                            former: string, t': Templates, b': seq<string>, current: string)
    requires former != current && isIp(former) && isIp(current) && t.ike.authMethod == "psk"
    requires Known(s.hosts, remote) == Encoded(Desired(t, b, former, former, remote, true))
    ensures var identity := if t.ike.localId == "" then former else t.ike.localId;
      !("%" <= identity) ==>
      Holds(Apply(isIp, s, LoadTried(remote, Desired(t', b', current, current, remote, true), true)).stale,
        remote, former, identity)
  {
    AddressChangeIsAuthorized(isIp, remote, t, b, former, t', b', current);
    var identity := AuthorityIdentity(Desired(t, b, former, former, remote, true));
    QueueHolds(isIp, s.stale, remote, Known(s.hosts, remote), Desired(t', b', current, current, remote, true),
      remote, former, identity);
  }

  /** A cache hit is exact: two fingerprints are equal exactly when the addresses, remote host, mode
      and every template field that reaches the connection are, so any change of these loads the
      connection again and nothing else does. */
  lemma FingerprintTracksInputs(t: Templates, b: seq<string>, agent: string, tunnel: string, remote: string, mode: bool,
                                t': Templates, b': seq<string>, agent': string, tunnel': string, remote': string,
                                  mode': bool)
    ensures Desired(t, b, agent, tunnel, remote, mode) == Desired(t', b', agent', tunnel', remote', mode') <==>
      && agent == agent' && tunnel == tunnel' && remote == remote' && mode == mode'
      && SameTemplates(t, b, t', b', !Less(remote, agent), !mode)
  {
    var x, y := Desired(t, b, agent, tunnel, remote, mode), Desired(t', b', agent', tunnel', remote', mode');
    if x == y {
      assert x.connection.remoteAddrs == [remote] && y.connection.remoteAddrs == [remote'];
      assert x.connection.remoteAddrs[0] == y.connection.remoteAddrs[0];
      assert x.connection.children["child-" + remote] == y.connection.children["child-" + remote];
    }
  }

  function RekeyTimeAt(agent: string, remote: string, t: Templates, b: seq<string>, tunnel: string,
                       mode: bool): string {
    Desired(t, b, agent, tunnel, remote, mode).connection.children["child-" + remote].rekeyTime
  }

  /** Of the two ends of a connection exactly one, the one with the greater address, puts off
      rekeying; the other keeps its template's interval. */
  lemma OneEndRekeys(x: string, y: string, t: Templates, b: seq<string>, tunnel: string, t': Templates, b': seq<string>,
                     tunnel': string, mode: bool)
    requires x != y
    ensures var atX, atY := RekeyTimeAt(x, y, t, b, tunnel, mode), RekeyTimeAt(y, x, t', b', tunnel', mode);
      if Less(y, x) then atX == "8760h" && atY == t'.child.rekeyTime else atY == "8760h" && atX == t.child.rekeyTime
  {
    LessTotal(x, y);
    if Less(x, y) { LessAsymmetric(x, y); }
  }

  // ---------------------------------------------------------------- SA selection

  function Count(sas: seq<IkeSa>, id: string): nat {
    if sas == [] then 0 else Count(sas[..|sas| - 1], id) + if sas[|sas| - 1].uniqueId == id then 1 else 0
  }

  predicate OwnedChildren(sa: IkeSa) {
    forall c :: c in sa.children ==> OwnedName(sa.remoteHost, c.name) && c.reqid == REQ_ID
  }

  /** One listed SA is a leftover of a proven former address. */
  predicate StaleSa(isIp: string -> bool, sa: IkeSa, sas: seq<IkeSa>, current: string, expected: set<string>,
                    stale: Authority) {
    && isIp(current)
    && sa.remoteHost in stale && sa.localHost in stale[sa.remoteHost]
    && sa.remoteHost in expected && sa.name == "conn-" + sa.remoteHost && sa.localHost != current
      && Count(sas, sa.uniqueId) == 1
    && (sa.state == "CONNECTING" || sa.state == "ESTABLISHED" || sa.state == "REKEYING")
    && (sa.localId == stale[sa.remoteHost][sa.localHost] || (sa.state == "CONNECTING" && sa.localId == ""))
    && UsableId(sa.uniqueId) && OwnedChildren(sa)
  }

  ghost predicate StaleId(isIp: string -> bool, sas: seq<IkeSa>, current: string, expected: set<string>,
                          stale: Authority, id: string) {
    exists sa :: sa in sas && sa.uniqueId == id && StaleSa(isIp, sa, sas, current, expected, stale)
  }

  method ChildrenAreOwned(sa: IkeSa) returns (owned: bool)
    ensures owned == OwnedChildren(sa)
  {
    owned := true;
    for i := 0 to |sa.children|
      invariant owned <==> forall k :: 0 <= k < i ==>
        OwnedName(sa.remoteHost, sa.children[k].name) && sa.children[k].reqid == REQ_ID
    {
      var c := sa.children[i];
      if !OwnedName(sa.remoteHost, c.name) || c.reqid != REQ_ID { owned := false; }
    }
    assert forall c :: c in sa.children <==> exists k :: 0 <= k < |sa.children| && sa.children[k] == c;
  }

  method StaleLocalIkeIds(isIp: string -> bool, sas: seq<IkeSa>, current: string, expected: set<string>,
                          stale: Authority)
    returns (ids: seq<string>)
    ensures forall id :: id in ids <==> StaleId(isIp, sas, current, expected, stale, id)
    ensures Sorted(ids, s => s)
  {
    if !isIp(current) { return []; }
    var counts: map<string, nat> := map[];
    for i := 0 to |sas|
      invariant forall id :: Count(sas[..i], id) == if id in counts then counts[id] else 0
    {
      assert sas[..i + 1][..i] == sas[..i];
      var id := sas[i].uniqueId;
      counts := counts[id := (if id in counts then counts[id] else 0) + 1];
    }
    assert sas[..|sas|] == sas;
    var picked := [];
    for i := 0 to |sas|
      invariant forall id :: id in picked <==>
        exists k :: 0 <= k < i && sas[k].uniqueId == id && StaleSa(isIp, sas[k], sas, current, expected, stale)
    {
      var sa := sas[i];
      if sa.remoteHost !in stale || sa.localHost !in stale[sa.remoteHost] { continue; }
      if sa.remoteHost !in expected || sa.name != "conn-" + sa.remoteHost || sa.localHost == current
        || sa.uniqueId !in counts || counts[sa.uniqueId] != 1 {
        continue;
      }
      if sa.state != "CONNECTING" && sa.state != "ESTABLISHED" && sa.state != "REKEYING" { continue; }
      if sa.localId != stale[sa.remoteHost][sa.localHost] && !(sa.state == "CONNECTING" && sa.localId == "") {
        continue;
      }
      if !UsableId(sa.uniqueId) { continue; }
      var owned := ChildrenAreOwned(sa);
      if owned { picked := picked + [sa.uniqueId]; }
    }
    assert forall sa :: sa in sas <==> exists k :: 0 <= k < |sas| && sas[k] == sa;
    ids := Sort(picked, s => s);
    SortSorts(picked, s => s);
  }

  // ---------------------------------------------------------------- the protocol machine

  /** The steps of a run with their outcomes. `Reaped` records one stale-local pass: what was
      listed, which ids went, and whether every selected id was terminated or already gone. */
  datatype Event =
    | Discovered(names: set<string>)
    | LoadTried(remote: string, identity: Identity, ok: bool)
    | Reaped(current: string, expected: set<string>, listing: seq<IkeSa>, killed: set<string>, cleared: bool)
    | Unloaded(host: string)

  function Apply(isIp: string -> bool, s: State, e: Event): State {
    match e
    case Discovered(names) => State(map n | n in names :: Foreign(""), map[])
    case LoadTried(remote, identity, ok) =>
      if Known(s.hosts, remote) == Encoded(identity) || !ok then s
      else State(s.hosts[remote := Encoded(identity)], Queue(isIp, s.stale, remote, Known(s.hosts, remote), identity))
    case Reaped(_, expected, _, _, cleared) => if cleared then s.(stale := s.stale - expected) else s
    case Unloaded(host) => State(s.hosts - {host}, s.stale - {host})
  }

  lemma DiscoveredState(isIp: string -> bool, s: State, found: Hosts)
    requires forall r :: r in found ==> found[r] == Foreign("")
    ensures Apply(isIp, s, Discovered(found.Keys)) == State(found, map[])
  {
    assert (map n | n in found.Keys :: Foreign("")) == found;
  }

  function Run(isIp: string -> bool, log: seq<Event>): State {
    if log == [] then State(map[], map[]) else Apply(isIp, Run(isIp, log[..|log| - 1]), log[|log| - 1])
  }

  /** What a stale-local pass may record in the state it runs in. */
  ghost predicate LegalEvent(isIp: string -> bool, s: State, e: Event) {
    e.Reaped? ==>
      && (forall id :: id in e.killed ==> StaleId(isIp, e.listing, e.current, e.expected, s.stale, id))
      && (e.cleared ==> forall id :: StaleId(isIp, e.listing, e.current, e.expected, s.stale, id) ==> id in e.killed)
  }

  ghost predicate LegalStep(isIp: string -> bool, log: seq<Event>, k: nat)
    requires k < |log|
  {
    LegalEvent(isIp, Run(isIp, log[..k]), log[k])
  }

  ghost predicate LegalRun(isIp: string -> bool, log: seq<Event>) {
    forall k: nat :: k < |log| ==> LegalStep(isIp, log, k)
  }

  // ---------------------------------------------------------------- provenance of the cache

  /** Step k loaded a connection for the remote: it was not cached and charon took it. */
  ghost predicate LoadsAt(isIp: string -> bool, log: seq<Event>, k: nat, remote: string) {
    && k < |log| && log[k].LoadTried? && log[k].remote == remote && log[k].ok
    && Known(Run(isIp, log[..k]).hosts, remote) != Encoded(log[k].identity)
  }

  ghost predicate ForgetsAt(log: seq<Event>, k: nat, remote: string) {
    k < |log| && (log[k].Discovered? || log[k] == Unloaded(remote))
  }

  /** The last thing that happened to the remote's cache entry is the load at step i. */
  ghost predicate LastLoad(isIp: string -> bool, log: seq<Event>, i: nat, remote: string) {
    LoadsAt(isIp, log, i, remote)
      && forall k: nat :: i < k < |log| ==> !LoadsAt(isIp, log, k, remote) && !ForgetsAt(log, k, remote)
  }

  lemma PrefixLoads(isIp: string -> bool, log: seq<Event>, n: nat, k: nat, remote: string)
    requires k < n <= |log|
    ensures LoadsAt(isIp, log[..n], k, remote) <==> LoadsAt(isIp, log, k, remote)
    ensures ForgetsAt(log[..n], k, remote) <==> ForgetsAt(log, k, remote)
    ensures log[..n][k] == log[k]
  {
    assert log[..n][..k] == log[..k];
  }

  /** What the last step does to a remote's cache entry. */
  lemma CacheStep(isIp: string -> bool, log: seq<Event>, remote: string)
    requires log != []
    ensures var n := |log| - 1;
      Known(Run(isIp, log).hosts, remote) ==
      if LoadsAt(isIp, log, n, remote) then Encoded(log[n].identity)
      else if ForgetsAt(log, n, remote) then Foreign("")
      else Known(Run(isIp, log[..n]).hosts, remote)
  {
  }

  lemma LastLoadExtends(isIp: string -> bool, log: seq<Event>, i: nat, remote: string)
    requires log != [] && i < |log| - 1
    requires !LoadsAt(isIp, log, |log| - 1, remote) && !ForgetsAt(log, |log| - 1, remote)
    ensures LastLoad(isIp, log[..|log| - 1], i, remote) <==> LastLoad(isIp, log, i, remote)
  {
    var n := |log| - 1;
    forall k: nat | k < n
      ensures LoadsAt(isIp, log[..n], k, remote) == LoadsAt(isIp, log, k, remote)
      ensures ForgetsAt(log[..n], k, remote) == ForgetsAt(log, k, remote)
    {
      PrefixLoads(isIp, log, n, k, remote);
    }
  }

  /** A decodable fingerprint is cached exactly for what this process itself loaded last. */
  lemma {:induction false} CacheProvenance(isIp: string -> bool, log: seq<Event>, remote: string, identity: Identity)
    ensures Known(Run(isIp, log).hosts, remote) == Encoded(identity)
            <==> exists i: nat :: LastLoad(isIp, log, i, remote) && log[i].identity == identity
    decreases |log|
  {
    if log != [] {
      var n := |log| - 1;
      CacheStep(isIp, log, remote);
      if LoadsAt(isIp, log, n, remote) {
        assert LastLoad(isIp, log, n, remote);
      } else if !ForgetsAt(log, n, remote) {
        CacheProvenance(isIp, log[..n], remote, identity);
        forall i: nat | i < n
          ensures LastLoad(isIp, log[..n], i, remote) == LastLoad(isIp, log, i, remote) && log[..n][i] == log[i]
        {
          LastLoadExtends(isIp, log, i, remote);
        }
      }
    }
  }

  // ---------------------------------------------------------------- provenance of authority

  /** Step j replaced an owned connection whose local address was addr. */
  ghost predicate QueuesAt(isIp: string -> bool, log: seq<Event>, j: nat, remote: string, addr: string) {
    LoadsAt(isIp, log, j, remote) &&
    var previous := Known(Run(isIp, log[..j]).hosts, remote);
    previous.Encoded? && Authorizes(isIp, remote, previous.identity, log[j].identity)
      && previous.identity.localAgentIp == addr
  }

  ghost predicate ConsumesAt(log: seq<Event>, k: nat, remote: string) {
    ForgetsAt(log, k, remote) || (k < |log| && log[k].Reaped? && log[k].cleared && remote in log[k].expected)
  }

  ghost predicate LastQueued(isIp: string -> bool, log: seq<Event>, j: nat, remote: string, addr: string) {
    QueuesAt(isIp, log, j, remote, addr)
      && forall k: nat :: j < k < |log| ==> !QueuesAt(isIp, log, k, remote, addr) && !ConsumesAt(log, k, remote)
  }

  ghost function QueuedIdentity(isIp: string -> bool, log: seq<Event>, j: nat, remote: string, addr: string): string
    requires QueuesAt(isIp, log, j, remote, addr)
  {
    AuthorityIdentity(Known(Run(isIp, log[..j]).hosts, remote).identity)
  }

  lemma PrefixQueues(isIp: string -> bool, log: seq<Event>, n: nat, k: nat, remote: string, addr: string)
    requires k < n <= |log|
    ensures QueuesAt(isIp, log[..n], k, remote, addr) <==> QueuesAt(isIp, log, k, remote, addr)
    ensures ConsumesAt(log[..n], k, remote) <==> ConsumesAt(log, k, remote)
    ensures QueuesAt(isIp, log, k, remote, addr) ==>
      QueuedIdentity(isIp, log[..n], k, remote, addr) == QueuedIdentity(isIp, log, k, remote, addr)
  {
    PrefixLoads(isIp, log, n, k, remote);
    assert log[..n][..k] == log[..k];
  }

  /** What queueing adds: the previous local address, if its connection was owned; all else stays. */
  lemma QueueHolds(isIp: string -> bool, stale: Authority, remote: string, previous: Fingerprint, current: Identity,
                   r: string, addr: string, identity: string)
    ensures Holds(Queue(isIp, stale, remote, previous, current), r, addr, identity) <==>
      if r == remote && previous.Encoded? && Authorizes(isIp, remote, previous.identity, current) &&
         previous.identity.localAgentIp == addr
      then identity == AuthorityIdentity(previous.identity)
      else Holds(stale, r, addr, identity)
  {
  }

  lemma AuthorityStep(isIp: string -> bool, log: seq<Event>, remote: string, addr: string, identity: string)
    requires log != []
    ensures var n := |log| - 1;
      Holds(Run(isIp, log).stale, remote, addr, identity) <==>
        if QueuesAt(isIp, log, n, remote, addr) then identity == QueuedIdentity(isIp, log, n, remote, addr)
        else Holds(Run(isIp, log[..n]).stale, remote, addr, identity) && !ConsumesAt(log, n, remote)
  {
    var s := Run(isIp, log[..|log| - 1]);
    match log[|log| - 1]
    case Discovered(_) =>
    case LoadTried(r, current, _) =>
      QueueHolds(isIp, s.stale, r, Known(s.hosts, r), current, remote, addr, identity);
    case Reaped(_, _, _, _, _) =>
    case Unloaded(_) =>
  }

  /** Authority over an address is held exactly when some step replaced an owned connection at
      that address and nothing consumed or renewed it since. */
  lemma {:induction false} AuthorityProvenance(isIp: string -> bool, log: seq<Event>, remote: string, addr: string,
                                               identity: string)
    ensures Holds(Run(isIp, log).stale, remote, addr, identity)
            <==> exists j: nat :: LastQueued(isIp, log, j, remote, addr) &&
                                  QueuedIdentity(isIp, log, j, remote, addr) == identity
    decreases |log|
  {
    if log != [] {
      var n := |log| - 1;
      var front := log[..n];
      AuthorityProvenance(isIp, front, remote, addr, identity);
      AuthorityStep(isIp, log, remote, addr, identity);
      if QueuesAt(isIp, log, n, remote, addr) {
        assert LastQueued(isIp, log, n, remote, addr);
      } else if !ConsumesAt(log, n, remote) {
        forall j: nat
          ensures LastQueued(isIp, front, j, remote, addr) <==> LastQueued(isIp, log, j, remote, addr)
          ensures LastQueued(isIp, log, j, remote, addr) ==>
            QueuedIdentity(isIp, front, j, remote, addr) == QueuedIdentity(isIp, log, j, remote, addr)
        {
          LastQueuedExtends(isIp, log, j, remote, addr);
        }
      }
    }
  }

  lemma LastQueuedExtends(isIp: string -> bool, log: seq<Event>, j: nat, remote: string, addr: string)
    requires log != [] && !QueuesAt(isIp, log, |log| - 1, remote, addr) && !ConsumesAt(log, |log| - 1, remote)
    ensures LastQueued(isIp, log[..|log| - 1], j, remote, addr) <==> LastQueued(isIp, log, j, remote, addr)
    ensures LastQueued(isIp, log, j, remote, addr) ==>
      QueuedIdentity(isIp, log[..|log| - 1], j, remote, addr) == QueuedIdentity(isIp, log, j, remote, addr)
  {
    var n := |log| - 1;
    forall k: nat | k < n
      ensures QueuesAt(isIp, log[..n], k, remote, addr) == QueuesAt(isIp, log, k, remote, addr)
        && ConsumesAt(log[..n], k, remote) == ConsumesAt(log, k, remote)
    {
      PrefixQueues(isIp, log, n, k, remote, addr);
    }
    if j < n { PrefixQueues(isIp, log, n, j, remote, addr); }
  }

  /** In a run, steps i < j are this process's own successive loads for the remote, the first
      one in host-tunnel mode at local address addr, and the authority is the first one's. */
  ghost predicate ProvenFormerAddress(isIp: string -> bool, log: seq<Event>, i: nat, j: nat, remote: string,
                                      addr: string, identity: string) {
    && i < j < |log| && LoadsAt(isIp, log, i, remote) && LoadsAt(isIp, log, j, remote)
    && (forall k: nat :: i < k < j ==> !LoadsAt(isIp, log, k, remote) && !ForgetsAt(log, k, remote))
    && (forall k: nat :: j < k < |log| ==> !ConsumesAt(log, k, remote))
    && (var former := log[i].identity;
        && former.hostTunnelSource && former.localAgentIp == addr && former.connection.localAddrs == [addr]
        && former.connection.remoteAddrs == [remote] && former.connection.authMethod == "psk"
        && former.connection.children.Keys == {"child-" + remote}
        && former.connection.children["child-" + remote].reqId == "1234"
        && identity == (if former.connection.localId == "" then addr else former.connection.localId)
        && !("%" <= identity) && isIp(addr) && isIp(log[j].identity.localAgentIp)
        && log[j].identity.hostTunnelSource && log[j].identity.localAgentIp != addr)
  }

  lemma AuthorityTracesToOwnLoads(isIp: string -> bool, log: seq<Event>, remote: string, addr: string, identity: string)
    requires Holds(Run(isIp, log).stale, remote, addr, identity)
    ensures exists i: nat, j: nat :: ProvenFormerAddress(isIp, log, i, j, remote, addr, identity)
  {
    AuthorityProvenance(isIp, log, remote, addr, identity);
    var j: nat :| LastQueued(isIp, log, j, remote, addr) && QueuedIdentity(isIp, log, j, remote, addr) == identity;
    var previous := Known(Run(isIp, log[..j]).hosts, remote).identity;
    CacheProvenance(isIp, log[..j], remote, previous);
    var i: nat :| LastLoad(isIp, log[..j], i, remote) && log[..j][i].identity == previous;
    forall k: nat | k < j
      ensures LoadsAt(isIp, log[..j], k, remote) == LoadsAt(isIp, log, k, remote)
        && ForgetsAt(log[..j], k, remote) == ForgetsAt(log, k, remote)
    {
      PrefixLoads(isIp, log, j, k, remote);
    }
    OneChild(previous.connection.children, "child-" + remote);
    assert ProvenFormerAddress(isIp, log, i, j, remote, addr, identity);
  }

  lemma OneChild(children: map<string, ChildConf>, name: string)
    requires |children| == 1 && name in children
    ensures children.Keys == {name}
  {
    assert |children.Keys - {name}| == 0;
  }

  /** Discovering connections and failed loads never create or change authority. */
  lemma OnlyOwnLoadsCreateAuthority(isIp: string -> bool, s: State, e: Event, remote: string, addr: string,
                                    identity: string)
    requires Holds(Apply(isIp, s, e).stale, remote, addr, identity) && !Holds(s.stale, remote, addr, identity)
    ensures e.LoadTried? && e.ok && e.remote == remote
    ensures Known(s.hosts, remote).Encoded? && Authorizes(isIp, remote, Known(s.hosts, remote).identity, e.identity)
  {
  }

  // ---------------------------------------------------------------- safety of terminations

  lemma {:induction false} CountPositive(sas: seq<IkeSa>, id: string, m: nat)
    requires m < |sas| && sas[m].uniqueId == id
    ensures Count(sas, id) >= 1
  {
    if m < |sas| - 1 { CountPositive(sas[..|sas| - 1], id, m); }
  }

  lemma {:induction false} CountedOnce(sas: seq<IkeSa>, id: string, m: nat, k: nat)
    requires Count(sas, id) == 1 && m < |sas| && k < |sas| && sas[m].uniqueId == sas[k].uniqueId == id
    ensures m == k
  {
    var front := sas[..|sas| - 1];
    if m < |front| && k < |front| {
      CountPositive(front, id, m);
      CountedOnce(front, id, m, k);
    } else if m < |front| {
      CountPositive(front, id, m);
    } else if k < |front| {
      CountPositive(front, id, k);
    }
  }

  lemma {:induction false} CountNone(sas: seq<IkeSa>, id: string)
    requires forall x :: 0 <= x < |sas| ==> sas[x].uniqueId != id
    ensures Count(sas, id) == 0
  {
    if sas != [] { CountNone(sas[..|sas| - 1], id); }
  }

  /** An SA that shares its id with no other listed one is counted once. */
  lemma {:induction false} CountAlone(sas: seq<IkeSa>, m: nat)
    requires m < |sas| && forall x :: 0 <= x < |sas| && sas[x].uniqueId == sas[m].uniqueId ==> x == m
    ensures Count(sas, sas[m].uniqueId) == 1
  {
    var front := sas[..|sas| - 1];
    if m < |front| { CountAlone(front, m); } else { CountNone(front, sas[m].uniqueId); }
  }

  /** A numeral as ParseUint accepts it, of a positive value below the limit. */
  predicate PositiveNumeral(s: string, limit: nat) {
    s != "" && AllDigits(s) && 0 < DigitsValue(s) < limit
  }

  /** A child of the host: its configured name, bare or with a positive 64-bit suffix, and request id 1234. */
  ghost predicate ChildOf(host: string, c: ChildSa) {
    && c.reqid == "1234"
    && (c.name == "child-" + host ||
        exists suffix :: c.name == "child-" + host + "-" + suffix && PositiveNumeral(suffix, 0x1_0000_0000_0000_0000))
  }

  lemma OwnedNameMeans(host: string, c: ChildSa)
    ensures OwnedName(host, c.name) && c.reqid == REQ_ID <==> ChildOf(host, c)
  {
    var prefix := "child-" + host;
    if prefix + "-" <= c.name {
      assert c.name == prefix + "-" + c.name[|prefix| + 1..];
      forall suffix | c.name == prefix + "-" + suffix ensures suffix == c.name[|prefix| + 1..] {}
    } else {
      forall suffix ensures c.name != prefix + "-" + suffix {
        assert prefix + "-" <= prefix + "-" + suffix;
      }
    }
  }

  /** The listed SA at m is what a stale-local pass is to remove, under the given identity: it is
      listed alone under a usable id, for an expected peer's own connection, away from the current
      address, in one of three states, with that local identity unless it is still connecting, and
      all its children are the peer's. */
  ghost predicate Leftover(isIp: string -> bool, listing: seq<IkeSa>, m: nat, current: string, expected: set<string>,
                           identity: string) {
    && m < |listing| && isIp(current)
    && (forall x :: 0 <= x < |listing| && listing[x].uniqueId == listing[m].uniqueId ==> x == m)
    && (var sa := listing[m];
        && PositiveNumeral(sa.uniqueId, 0x1_0000_0000)
        && sa.remoteHost in expected && sa.name == "conn-" + sa.remoteHost && sa.localHost != current
        && sa.state in {"CONNECTING", "ESTABLISHED", "REKEYING"}
        && (sa.localId == identity || (sa.state == "CONNECTING" && sa.localId == ""))
        && forall c :: c in sa.children ==> ChildOf(sa.remoteHost, c))
  }

  ghost predicate HeldLeftover(isIp: string -> bool, listing: seq<IkeSa>, m: nat, current: string,
                               expected: set<string>, stale: Authority, identity: string, id: string) {
    && Leftover(isIp, listing, m, current, expected, identity) && listing[m].uniqueId == id
    && Holds(stale, listing[m].remoteHost, listing[m].localHost, identity)
  }

  /** A pass selects exactly the leftovers over whose address and identity it holds authority. */
  lemma StaleMeansLeftover(isIp: string -> bool, listing: seq<IkeSa>, current: string, expected: set<string>,
                           stale: Authority, id: string)
    ensures StaleId(isIp, listing, current, expected, stale, id) <==>
      exists m: nat, identity :: HeldLeftover(isIp, listing, m, current, expected, stale, identity, id)
  {
    if StaleId(isIp, listing, current, expected, stale, id) {
      var m, identity := StaleIsLeftover(isIp, listing, current, expected, stale, id);
    }
    if m: nat, identity :| HeldLeftover(isIp, listing, m, current, expected, stale, identity, id) {
      LeftoverIsStale(isIp, listing, m, current, expected, stale, identity, id);
    }
  }

  lemma StaleIsLeftover(isIp: string -> bool, listing: seq<IkeSa>, current: string, expected: set<string>,
                        stale: Authority, id: string)
    returns (m: nat, identity: string)
    requires StaleId(isIp, listing, current, expected, stale, id)
    ensures HeldLeftover(isIp, listing, m, current, expected, stale, identity, id)
  {
    var sa :| sa in listing && sa.uniqueId == id && StaleSa(isIp, sa, listing, current, expected, stale);
    m :| 0 <= m < |listing| && listing[m] == sa;
    identity := stale[sa.remoteHost][sa.localHost];
    forall x: nat | x < |listing| && listing[x].uniqueId == id ensures x == m { CountedOnce(listing, id, m, x); }
    forall c | c in sa.children ensures ChildOf(sa.remoteHost, c) { OwnedNameMeans(sa.remoteHost, c); }
  }

  lemma LeftoverIsStale(isIp: string -> bool, listing: seq<IkeSa>, m: nat, current: string, expected: set<string>,
                        stale: Authority, identity: string, id: string)
    requires HeldLeftover(isIp, listing, m, current, expected, stale, identity, id)
    ensures StaleId(isIp, listing, current, expected, stale, id)
  {
    var sa := listing[m];
    CountAlone(listing, m);
    forall c | c in sa.children ensures OwnedName(sa.remoteHost, c.name) && c.reqid == REQ_ID {
      OwnedNameMeans(sa.remoteHost, c);
    }
    assert StaleSa(isIp, sa, listing, current, expected, stale);
  }

  /** Over whole runs: an id killed by a stale-local pass names exactly one listed SA; its peer
      is expected, its local address differs from the current one and is a proven former
      address of a connection this process loaded, its local identity is that connection's unless
      it is still connecting, and all its children are owned. */
  lemma TerminationsAreProven(isIp: string -> bool, log: seq<Event>, k: nat, id: string) returns (m: nat)
    requires LegalRun(isIp, log) && k < |log| && log[k].Reaped? && id in log[k].killed
    ensures var listing := log[k].listing;
      && m < |listing| && listing[m].uniqueId == id
      && (forall x :: 0 <= x < |listing| && listing[x].uniqueId == id ==> x == m)
      && (var sa := listing[m];
          && sa.remoteHost in log[k].expected && sa.name == "conn-" + sa.remoteHost
          && sa.localHost != log[k].current && OwnedChildren(sa)
          && (sa.state == "CONNECTING" || sa.state == "ESTABLISHED" || sa.state == "REKEYING")
          && exists i: nat, j: nat, identity ::
            && ProvenFormerAddress(isIp, log[..k], i, j, sa.remoteHost, sa.localHost, identity)
            && (sa.localId == identity || (sa.state == "CONNECTING" && sa.localId == "")))
  {
    var e := log[k];
    var s := Run(isIp, log[..k]);
    assert LegalStep(isIp, log, k);
    var identity;
    m, identity := StaleIsLeftover(isIp, e.listing, e.current, e.expected, s.stale, id);
    var sa := e.listing[m];
    forall c | c in sa.children ensures OwnedName(sa.remoteHost, c.name) && c.reqid == REQ_ID {
      OwnedNameMeans(sa.remoteHost, c);
    }
    AuthorityTracesToOwnLoads(isIp, log[..k], sa.remoteHost, sa.localHost, identity);
  }

  ghost predicate HeldAt(isIp: string -> bool, log: seq<Event>, k: nat, remote: string, addr: string)
    requires k <= |log|
  {
    exists identity :: Holds(Run(isIp, log[..k]).stale, remote, addr, identity)
  }

  /** Authority lost in step k of a legal run was discovered away, unloaded with its host, or
      consumed by a stale-local pass that had killed every SA it selected; and it is held again
      later only after another load queued it anew. */
  lemma AuthorityIsConsumedOnce(isIp: string -> bool, log: seq<Event>, k: nat, m: nat, remote: string, addr: string)
    requires LegalRun(isIp, log) && k < m <= |log|
    requires HeldAt(isIp, log, k, remote, addr) && !HeldAt(isIp, log, k + 1, remote, addr)
    ensures match log[k]
      case Discovered(_) => true
      case Unloaded(host) => host == remote
      case LoadTried(_, _, _) => false
      case Reaped(current, expected, listing, killed, cleared) =>
        && cleared && remote in expected
        && forall id :: StaleId(isIp, listing, current, expected, Run(isIp, log[..k]).stale, id) ==> id in killed
    ensures HeldAt(isIp, log, m, remote, addr) ==> exists j: nat :: k < j < m && QueuesAt(isIp, log, j, remote, addr)
  {
    assert LegalStep(isIp, log, k);
    assert log[..k + 1][..k] == log[..k];
    var identity :| Holds(Run(isIp, log[..k]).stale, remote, addr, identity);
    AuthorityStep(isIp, log[..k + 1], remote, addr, identity);
    if QueuesAt(isIp, log[..k + 1], k, remote, addr) {
      AuthorityStep(isIp, log[..k + 1], remote, addr, QueuedIdentity(isIp, log[..k + 1], k, remote, addr));
      assert false;
    }
    NoAuthorityWithoutQueueing(isIp, log, k + 1, m, remote, addr);
  }

  /** One authority licenses one completed pass: between a pass that consumed a remote's authority
      and a later pass that finds an SA of this remote stale, a load queued that SA's address anew. */
  lemma AuthorityIsOneShot(isIp: string -> bool, log: seq<Event>, k: nat, m: nat, sa: IkeSa)
    requires k < m < |log| && log[k].Reaped? && log[k].cleared && sa.remoteHost in log[k].expected
    requires log[m].Reaped?
      && StaleSa(isIp, sa, log[m].listing, log[m].current, log[m].expected, Run(isIp, log[..m]).stale)
    ensures exists j: nat :: k < j < m && QueuesAt(isIp, log, j, sa.remoteHost, sa.localHost)
  {
    assert log[..k + 1][..k] == log[..k];
    var held := Run(isIp, log[..m]).stale[sa.remoteHost][sa.localHost];
    assert Holds(Run(isIp, log[..m]).stale, sa.remoteHost, sa.localHost, held);
    assert sa.remoteHost !in Run(isIp, log[..k + 1]).stale;
    NoAuthorityWithoutQueueing(isIp, log, k + 1, m, sa.remoteHost, sa.localHost);
  }

  /** Authority not held at one time is held at a later time only if a step in between queued it. */
  lemma {:induction false} NoAuthorityWithoutQueueing(isIp: string -> bool, log: seq<Event>, k: nat, m: nat,
                                                      remote: string, addr: string)
    requires k <= m <= |log| && !HeldAt(isIp, log, k, remote, addr)
    ensures HeldAt(isIp, log, m, remote, addr) ==> exists j: nat :: k <= j < m && QueuesAt(isIp, log, j, remote, addr)
    decreases m
  {
    if k < m && HeldAt(isIp, log, m, remote, addr) {
      NoAuthorityWithoutQueueing(isIp, log, k, m - 1, remote, addr);
      var n := m - 1;
      var identity :| Holds(Run(isIp, log[..m]).stale, remote, addr, identity);
      assert log[..m][..n] == log[..n];
      AuthorityStep(isIp, log[..m], remote, addr, identity);
      PrefixQueues(isIp, log, m, n, remote, addr);
    }
  }

  /** Authority is only ever held for cached hosts, and never without host-tunnel mode. */
  lemma {:induction false} AuthorityOnlyForCachedHosts(isIp: string -> bool, log: seq<Event>)
    ensures Run(isIp, log).stale.Keys <= Run(isIp, log).hosts.Keys
    ensures (forall k: nat :: k < |log| ==> InMode(false, log, k)) ==> Run(isIp, log).stale == map[]
  {
    if log != [] {
      var front := log[..|log| - 1];
      AuthorityOnlyForCachedHosts(isIp, front);
      if forall k: nat :: k < |log| ==> InMode(false, log, k) {
        forall k: nat | k < |front| ensures InMode(false, front, k) { assert InMode(false, log, k); }
        assert InMode(false, log, |log| - 1);
      }
    }
  }

  /** The overlay's fields are the outcome of a legal run in which every load was made in the
      process's own tunnel mode. */
  ghost predicate History(isIp: string -> bool, hostTunnel: bool, log: seq<Event>, s: State) {
    && Run(isIp, log) == s && LegalRun(isIp, log)
    && forall k: nat :: k < |log| ==> InMode(hostTunnel, log, k)
  }

  predicate InMode(hostTunnel: bool, log: seq<Event>, k: nat)
    requires k < |log|
  {
    log[k].LoadTried? ==> log[k].identity.hostTunnelSource == hostTunnel
  }

  lemma HistoryExtends(isIp: string -> bool, hostTunnel: bool, log: seq<Event>, s: State, e: Event)
    requires History(isIp, hostTunnel, log, s) && LegalEvent(isIp, s, e)
    requires e.LoadTried? ==> e.identity.hostTunnelSource == hostTunnel
    ensures History(isIp, hostTunnel, log + [e], Apply(isIp, s, e))
  {
    var longer := log + [e];
    assert longer[..|log|] == log;
    forall k: nat | k < |longer| ensures LegalStep(isIp, longer, k) && InMode(hostTunnel, longer, k) {
      if k < |log| {
        assert longer[..k] == log[..k] && LegalStep(isIp, log, k) && InMode(hostTunnel, log, k);
      }
    }
  }

  lemma HistoryDiscovers(isIp: string -> bool, hostTunnel: bool, log: seq<Event>, s: State, found: Hosts)
    requires History(isIp, hostTunnel, log, s) && forall r :: r in found ==> found[r] == Foreign("")
    ensures History(isIp, hostTunnel, log + [Discovered(found.Keys)], State(found, map[]))
  {
    DiscoveredState(isIp, s, found);
    HistoryExtends(isIp, hostTunnel, log, s, Discovered(found.Keys));
  }

  lemma HistoryFacts(isIp: string -> bool, hostTunnel: bool, log: seq<Event>, s: State)
    requires History(isIp, hostTunnel, log, s)
    ensures s.stale.Keys <= s.hosts.Keys
    ensures !hostTunnel ==> s.stale == map[]
  {
    AuthorityOnlyForCachedHosts(isIp, log);
  }
}
