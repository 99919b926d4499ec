/** The metadata store's derived indexes: one pass over the containers fills the entry list and
    four maps, keeping the first eligible container of every address. */
module MetadataStore {
  import opened Text
  import opened Entries

  datatype Container = Container(primaryIp: string, hostUuid: string, networkUuid: string, networkFrom: string)
  datatype Service = Service(uuid: string, stackName: string, name: string, system: bool, links: seq<string>,
    containers: seq<Container>)

  /** What one metadata fetch provides. Links are listed in any order. */
  datatype Info = Info(selfContainer: Container, selfService: Service, selfNetworkName: string, services: seq<Service>,
                       containers: seq<Container>, agentIps: map<string, string>, networkNames: map<string, string>)

  type Index = map<string, Entry>
  type KeyOf = Entry -> string

  datatype Indexes = Indexes(self: Entry, entries: seq<Entry>, local: Index, remote: Index, peersMap: Index,
    remoteNonPeers: Index)

  function Lookup(m: map<string, string>, k: string): string { if k in m then m[k] else "" }

  function EntryOf(info: Info, c: Container): Entry {
    Entry(c.primaryIp + "/16", Lookup(info.agentIps, c.hostUuid), c.primaryIp == info.selfContainer.primaryIp, false)
  }

  // ---------------------------------------------------------------- linked peers

  function FullName(s: Service): string { s.stackName + "/" + s.name }

  predicate Listed(s: Service, self: Service) { s.system && s.uuid != self.uuid }

  /** servicesMapByName: the other system services of each full name, in order. */
  function Named(services: seq<Service>, self: Service, name: string): seq<Service> {
    if services == [] then []
    else
      var front, last := Named(services[..|services| - 1], self, name), services[|services| - 1];
      if Listed(last, self) && FullName(last) == name then front + [last] else front
  }

  method ServicesMapByName(services: seq<Service>, self: Service) returns (m: map<string, seq<Service>>)
    ensures forall name :: Named(services, self, name) == if name in m then m[name] else []
    ensures forall name :: name in m ==> m[name] != []
  {
    m := map[];
    for i := 0 to |services|
      invariant forall name :: Named(services[..i], self, name) == if name in m then m[name] else []
      invariant forall name :: name in m ==> m[name] != []
    {
      var s := services[i];
      assert services[..i + 1][..i] == services[..i];
      if !Listed(s, self) { continue; }
      var key := FullName(s);
      m := m[key := (if key in m then m[key] else []) + [s]];
    }
    assert services[..|services|] == services;
  }

  /** The services linked with self: those self links to, or if it has no links, the system
      services' namesakes that link to self. */
  ghost predicate LinkedName(info: Info, name: string) {
    if info.selfService.links != [] then name in info.selfService.links
    else exists s :: s in info.services && s.system && FullName(info.selfService) in s.links && FullName(s) == name
  }

  predicate OnSelfNetwork(info: Info, c: Container) {
    Lookup(info.networkNames, c.networkUuid) == info.selfNetworkName
  }

  /** Some service of the sequence runs the container on self's network. */
  ghost predicate Runs(info: Info, services: seq<Service>, c: Container) {
    exists s :: s in services && c in s.containers && OnSelfNetwork(info, c)
  }

  ghost predicate LinkedPeer(info: Info, c: Container) {
    exists name :: LinkedName(info, name) && Runs(info, Named(info.services, info.selfService, name), c)
  }

  method PeersOf(info: Info, services: seq<Service>) returns (peers: seq<Container>)
    ensures forall c :: c in peers <==> Runs(info, services, c)
  {
    peers := [];
    for i := 0 to |services|
      invariant forall c :: c in peers <==> Runs(info, services[..i], c)
    {
      var containers := services[i].containers;
      ghost var before := peers;
      for j := 0 to |containers|
        invariant forall c :: c in peers <==> c in before || (c in containers[..j] && OnSelfNetwork(info, c))
      {
        assert containers[..j + 1] == containers[..j] + [containers[j]];
        if OnSelfNetwork(info, containers[j]) { peers := peers + [containers[j]]; }
      }
      assert containers[..|containers|] == containers;
      assert services[..i + 1] == services[..i] + [services[i]];
    }
    assert services[..|services|] == services;
  }

  method LinkedNames(info: Info) returns (names: seq<string>)
    ensures forall name :: name in names <==> LinkedName(info, name)
  {
    if info.selfService.links != [] { return info.selfService.links; }
    names := [];
    for i := 0 to |info.services|
      invariant forall name :: name in names <==>
        exists s :: s in info.services[..i] && s.system && FullName(info.selfService) in s.links && FullName(s) == name
    {
      var s := info.services[i];
      assert info.services[..i + 1] == info.services[..i] + [s];
      if s.system && FullName(info.selfService) in s.links { names := names + [FullName(s)]; }
    }
    assert info.services[..|info.services|] == info.services;
  }

  /** A service of one of the given names runs the container on self's network. */
  ghost predicate NamedRuns(info: Info, names: seq<string>, c: Container) {
    exists name :: name in names && Runs(info, Named(info.services, info.selfService, name), c)
  }

  lemma NamedRunsExtends(info: Info, names: seq<string>, name: string, c: Container)
    ensures NamedRuns(info, names + [name], c) <==>
      NamedRuns(info, names, c) || Runs(info, Named(info.services, info.selfService, name), c)
  {
    if NamedRuns(info, names, c) {
      var n :| n in names && Runs(info, Named(info.services, info.selfService, n), c);
      assert n in names + [name];
    }
    if Runs(info, Named(info.services, info.selfService, name), c) { assert name in names + [name]; }
  }

  method PeersNamed(info: Info, byName: map<string, seq<Service>>, names: seq<string>) returns (peers: seq<Container>)
    requires forall name :: Named(info.services, info.selfService, name) == if name in byName then byName[name] else []
    ensures forall c :: c in peers <==> NamedRuns(info, names, c)
  {
    peers := [];
    for i := 0 to |names|
      invariant forall c :: c in peers <==> NamedRuns(info, names[..i], c)
    {
      var found := PeersOf(info, if names[i] in byName then byName[names[i]] else []);
      ghost var before := peers;
      peers := peers + found;
      assert names[..i + 1] == names[..i] + [names[i]];
      forall c ensures c in peers <==> NamedRuns(info, names[..i + 1], c) {
        NamedRunsExtends(info, names[..i], names[i], c);
        assert c in peers <==> c in before || c in found;
      }
    }
    assert names[..|names|] == names;
  }

  /** getLinkedPeersInfo: the linked peers on self's network, and their networks. */
  method LinkedPeersInfo(info: Info) returns (networks: set<string>, peers: seq<Container>)
    ensures forall c :: c in peers <==> LinkedPeer(info, c)
    ensures networks == set c | c in peers :: c.networkUuid
  {
    var byName := ServicesMapByName(info.services, info.selfService);
    var names := LinkedNames(info);
    peers := PeersNamed(info, byName, names);
    networks := set c | c in peers :: c.networkUuid;
  }

  // ---------------------------------------------------------------- the index pass

  predicate Eligible(c: Container, networks: set<string>) {
    c.networkUuid in networks && c.primaryIp != "" && c.networkFrom == ""
  }

  /** Container i is the first eligible one of its address. */
  ghost predicate First(key: KeyOf, info: Info, networks: set<string>, i: nat) {
    && i < |info.containers| && Eligible(info.containers[i], networks)
    && forall j :: 0 <= j < i && Eligible(info.containers[j], networks) ==>
         key(EntryOf(info, info.containers[j])) != key(EntryOf(info, info.containers[i]))
  }

  ghost predicate DistinctKeys(key: KeyOf, entries: seq<Entry>) {
    forall i, j :: 0 <= i < j < |entries| ==> key(entries[i]) != key(entries[j])
  }

  datatype Part = Local | Remote | RemoteNonPeer | Peers

  predicate Belongs(part: Part, host: string, e: Entry) {
    match part
    case Local => e.hostIp == host
    case Remote => e.hostIp != host
    case RemoteNonPeer => e.hostIp != host && !e.peer
    case Peers => e.peer
  }

  /** The map holds exactly the listed entries of one part, each under its address. */
  ghost predicate IndexesPart(key: KeyOf, m: Index, entries: seq<Entry>, part: Part, host: string) {
    && (forall k :: k in m ==> m[k] in entries && Belongs(part, host, m[k]) && key(m[k]) == k)
    && (forall e :: e in entries && Belongs(part, host, e) ==> key(e) in m && m[key(e)] == e)
  }

  lemma PartExtends(key: KeyOf, m: Index, entries: seq<Entry>, part: Part, host: string, e: Entry)
    requires IndexesPart(key, m, entries, part, host) && forall f :: f in entries ==> key(f) != key(e)
    ensures IndexesPart(key, if Belongs(part, host, e) then m[key(e) := e] else m, entries + [e], part, host)
  {
  }

  /** The indexes agree with each other: addresses are distinct, local and remote split the
      entries by host, the peer flag is membership in the peer map, and the remote non-peers are
      the remote entries outside it. */
  ghost predicate Consistent(key: KeyOf, x: Indexes) {
    && DistinctKeys(key, x.entries)
    && IndexesPart(key, x.local, x.entries, Local, x.self.hostIp)
    && IndexesPart(key, x.remote, x.entries, Remote, x.self.hostIp)
    && IndexesPart(key, x.remoteNonPeers, x.entries, RemoteNonPeer, x.self.hostIp)
    && (forall e :: e in x.entries ==> (e.peer <==> key(e) in x.peersMap))
    && (forall k :: k in x.peersMap ==> x.peersMap[k].peer)
  }

  /** The entries are the first eligible containers, with the peer flag set by the peer map. */
  ghost predicate FromContainers(key: KeyOf, info: Info, networks: set<string>, x: Indexes, n: nat) {
    && (forall i: nat :: i < n && First(key, info, networks, i) ==>
      Flagged(key, info, x.peersMap, info.containers[i]) in x.entries)
    && (forall e :: e in x.entries ==>
      exists i: nat :: i < n && First(key, info, networks, i) &&
                       e == Flagged(key, info, x.peersMap, info.containers[i]))
  }

  function Flagged(key: KeyOf, info: Info, peersMap: Index, c: Container): Entry {
    var e := EntryOf(info, c);
    if key(e) in peersMap then e.(peer := true) else e
  }

  /** The last listed peer of an address decides its entry. */
  ghost predicate LastPeer(key: KeyOf, info: Info, peers: seq<Container>, j: nat, k: string) {
    && j < |peers| && key(EntryOf(info, peers[j])) == k
    && forall l :: j < l < |peers| ==> key(EntryOf(info, peers[l])) != k
  }

  method BuildPeersMap(key: KeyOf, info: Info, peers: seq<Container>) returns (m: Index)
    ensures forall k :: k in m <==> exists c :: c in peers && key(EntryOf(info, c)) == k
    ensures forall k :: k in m ==>
      exists j: nat :: LastPeer(key, info, peers, j, k) && m[k] == EntryOf(info, peers[j]).(peer := true)
  {
    m := map[];
    for i := 0 to |peers|
      invariant forall k :: k in m <==> exists c :: c in peers[..i] && key(EntryOf(info, c)) == k
      invariant forall k :: k in m ==>
        exists j: nat :: LastPeer(key, info, peers[..i], j, k) && m[k] == EntryOf(info, peers[j]).(peer := true)
    {
      var e := EntryOf(info, peers[i]);
      ghost var before := m;
      m := m[key(e) := e.(peer := true)];
      assert peers[..i + 1] == peers[..i] + [peers[i]];
      forall k | k in m
        ensures exists j: nat :: LastPeer(key, info, peers[..i + 1], j, k) &&
                                 m[k] == EntryOf(info, peers[j]).(peer := true)
      {
        if k == key(e) {
          assert LastPeer(key, info, peers[..i + 1], i, k);
        } else {
          var j: nat :| LastPeer(key, info, peers[..i], j, k) && before[k] == EntryOf(info, peers[j]).(peer := true);
          assert LastPeer(key, info, peers[..i + 1], j, k);
        }
      }
    }
    assert peers[..|peers|] == peers;
  }

  /** The key ignores the flags of an entry: it is read from the address alone. */
  ghost predicate AddressKey(key: KeyOf) {
    forall e: Entry, peer: bool :: key(e.(peer := peer)) == key(e)
  }

  ghost predicate SeenKeys(key: KeyOf, info: Info, networks: set<string>, seen: set<string>, n: nat)
    requires n <= |info.containers|
  {
    forall k :: k in seen <==>
      exists j :: 0 <= j < n && Eligible(info.containers[j], networks) && key(EntryOf(info, info.containers[j])) == k
  }

  method BuildIndexes(key: KeyOf, info: Info, networks: set<string>, peersMap: Index) returns (x: Indexes)
    requires AddressKey(key) && forall k :: k in peersMap ==> peersMap[k].peer
    ensures x.self == EntryOf(info, info.selfContainer) && x.peersMap == peersMap
    ensures Consistent(key, x) && FromContainers(key, info, networks, x, |info.containers|)
  {
    x := Indexes(EntryOf(info, info.selfContainer), [], map[], map[], peersMap, map[]);
    var seen: set<string> := {};
    for i := 0 to |info.containers|
      invariant x.self == EntryOf(info, info.selfContainer) && x.peersMap == peersMap
      invariant Consistent(key, x) && FromContainers(key, info, networks, x, i)
      invariant SeenKeys(key, info, networks, seen, i)
    {
      var c := info.containers[i];
      var e := EntryOf(info, c);
      var ip := key(e);
      SeenStep(key, info, networks, seen, x, i);
      if !Eligible(c, networks) || ip in seen { continue; }
      seen := seen + {ip};
      if ip in peersMap { e := e.(peer := true); }
      ghost var before := x;
      x := Extend(key, x, ip, e);
      FirstExtends(key, info, networks, before, x, i);
    }
  }

  /** What the seen set decides about container i. */
  lemma SeenStep(key: KeyOf, info: Info, networks: set<string>, seen: set<string>, x: Indexes, i: nat)
    requires AddressKey(key) && i < |info.containers| && SeenKeys(key, info, networks, seen, i)
      && FromContainers(key, info, networks, x, i)
    ensures var ip := key(EntryOf(info, info.containers[i]));
      if Eligible(info.containers[i], networks) && ip !in seen then
        First(key, info, networks, i) && SeenKeys(key, info, networks, seen + {ip}, i + 1)
          && forall f :: f in x.entries ==> key(f) != ip
      else SeenKeys(key, info, networks, seen, i + 1) && FromContainers(key, info, networks, x, i + 1)
  {
    var ip := key(EntryOf(info, info.containers[i]));
    if Eligible(info.containers[i], networks) && ip !in seen {
      forall f | f in x.entries ensures key(f) != ip {
        var j: nat :| j < i && First(key, info, networks, j) && f == Flagged(key, info, x.peersMap, info.containers[j]);
        assert key(f) == key(EntryOf(info, info.containers[j]));
        assert key(f) in seen;
      }
    } else {
      assert !First(key, info, networks, i);
    }
  }

  lemma FirstExtends(key: KeyOf, info: Info, networks: set<string>, x: Indexes, y: Indexes, i: nat)
    requires FromContainers(key, info, networks, x, i) && i < |info.containers| && First(key, info, networks, i)
    requires y.entries == x.entries + [Flagged(key, info, x.peersMap, info.containers[i])] && y.peersMap == x.peersMap
    ensures FromContainers(key, info, networks, y, i + 1)
  {
  }

  /** One new entry of a fresh address keeps the indexes consistent. */
  method Extend(key: KeyOf, x: Indexes, ip: string, e: Entry) returns (y: Indexes)
    requires Consistent(key, x) && key(e) == ip && (e.peer <==> ip in x.peersMap)
    requires forall f :: f in x.entries ==> key(f) != ip
    ensures Consistent(key, y) && y.entries == x.entries + [e] && y.self == x.self && y.peersMap == x.peersMap
  {
    y := x;
    if e.hostIp == x.self.hostIp {
      y := y.(local := y.local[ip := e]);
    } else {
      y := y.(remote := y.remote[ip := e]);
      if !e.peer { y := y.(remoteNonPeers := y.remoteNonPeers[ip := e]); }
    }
    y := y.(entries := y.entries + [e]);
    PartExtends(key, x.local, x.entries, Local, x.self.hostIp, e);
    PartExtends(key, x.remote, x.entries, Remote, x.self.hostIp, e);
    PartExtends(key, x.remoteNonPeers, x.entries, RemoteNonPeer, x.self.hostIp, e);
  }

  /** Self's own network and those of the linked peers. */
  ghost predicate PeerNetworks(info: Info, networks: set<string>) {
    forall n :: n in networks <==>
      n == info.selfContainer.networkUuid || exists c :: LinkedPeer(info, c) && c.networkUuid == n
  }

  ghost predicate IsPeer(info: Info, c: Container) { c in info.selfService.containers || LinkedPeer(info, c) }

  /** The peer map's addresses are those of self's service and of the linked peers. */
  ghost predicate FromPeers(key: KeyOf, info: Info, peersMap: Index) {
    && (forall c :: IsPeer(info, c) ==> key(EntryOf(info, c)) in peersMap)
    && (forall k :: k in peersMap ==>
      exists c :: IsPeer(info, c) && key(EntryOf(info, c)) == k && peersMap[k] == EntryOf(info, c).(peer := true))
  }

  /** The first half of a refresh: the peer networks and the peer map. */
  method FindPeers(key: KeyOf, info: Info) returns (networks: set<string>, peersMap: Index)
    ensures PeerNetworks(info, networks) && FromPeers(key, info, peersMap)
  {
    var linked;
    networks, linked := LinkedPeersInfo(info);
    networks := networks + {info.selfContainer.networkUuid};
    var peers := info.selfService.containers + linked;
    assert forall c :: c in peers <==> IsPeer(info, c);
    peersMap := BuildPeersMap(key, info, peers);
    forall k | k in peersMap
      ensures exists c :: IsPeer(info, c) && key(EntryOf(info, c)) == k &&
                          peersMap[k] == EntryOf(info, c).(peer := true)
    {
      var j: nat :| LastPeer(key, info, peers, j, k) && peersMap[k] == EntryOf(info, peers[j]).(peer := true);
      assert peers[j] in peers && IsPeer(info, peers[j]);
    }
  }

  class Store {
    const key: KeyOf
    var indexes: Indexes
    /** The snapshot of the last refresh, and the networks its entries were taken from. */
    ghost var info: Info
    ghost var networks: set<string>

    /** The indexes agree with each other and are the last snapshot's. */
    ghost predicate Valid()
      reads this
    {
      && AddressKey(key) && Consistent(key, indexes) && FromContainers(key, info, networks, indexes, |info.containers|)
      && indexes.self.hostIp == Lookup(info.agentIps, info.selfContainer.hostUuid)
      && PeerNetworks(info, networks) && FromPeers(key, info, indexes.peersMap)
    }

    constructor (key: KeyOf)
      requires AddressKey(key)
      ensures Valid() && this.key == key && indexes.entries == []
    {
      this.key := key;
      indexes := Indexes(Entry("", "", false, false), [], map[], map[], map[], map[]);
      info := NoInfo();
      networks := {""};
    }

    /** doInternalRefresh: peer networks and peer addresses first, then the container pass. */
    method DoInternalRefresh(info: Info)
      requires Valid()
      modifies this
      ensures Valid() && this.info == info && indexes.self == EntryOf(info, info.selfContainer)
    {
      var nets, peersMap := FindPeers(key, info);
      indexes := BuildIndexes(key, info, nets, peersMap);
      this.info, networks := info, nets;
    }

    /** An address is remote exactly when its first eligible container sits on a host whose address
        differs from self's. */
    method IsRemote(ip: string) returns (remote: bool)
      requires Valid()
      ensures remote <==> FirstIsElsewhere(key, info, networks, ip)
    {
      RemoteMeansFirstContainerElsewhere(key, info, networks, indexes, ip);
      if ip in indexes.local { return false; }
      remote := ip in indexes.remote;
    }
  }

  function NoInfo(): Info {
    Info(Container("", "", "", ""), Service("", "", "", false, [], []), "", [], [], map[], map[])
  }

  /** The first eligible container of the address is not on self's host. */
  ghost predicate FirstIsElsewhere(key: KeyOf, info: Info, networks: set<string>, ip: string) {
    exists i: nat :: First(key, info, networks, i) && key(EntryOf(info, info.containers[i])) == ip
      && Lookup(info.agentIps, info.containers[i].hostUuid) != Lookup(info.agentIps, info.selfContainer.hostUuid)
  }

  // ---------------------------------------------------------------- what the indexes mean

  /** Local and remote partition the entries' addresses. */
  lemma LocalAndRemotePartition(key: KeyOf, x: Indexes, ip: string)
    requires Consistent(key, x)
    ensures ip in x.local || ip in x.remote <==> exists e :: e in x.entries && key(e) == ip
    ensures !(ip in x.local && ip in x.remote)
    ensures ip in x.remoteNonPeers <==> ip in x.remote && ip !in x.peersMap
  {
    if ip in x.local && ip in x.remote { SameKeySameEntry(key, x.entries, x.local[ip], x.remote[ip]); }
  }

  lemma SameKeySameEntry(key: KeyOf, entries: seq<Entry>, a: Entry, b: Entry)
    requires DistinctKeys(key, entries) && a in entries && b in entries && key(a) == key(b)
    ensures a == b
  {
    var i :| 0 <= i < |entries| && entries[i] == a;
    var j :| 0 <= j < |entries| && entries[j] == b;
    assert i == j;
  }

  lemma RemoteMeansFirstContainerElsewhere(key: KeyOf, info: Info, networks: set<string>, x: Indexes, ip: string)
    requires AddressKey(key) && Consistent(key, x) && FromContainers(key, info, networks, x, |info.containers|)
    requires x.self.hostIp == Lookup(info.agentIps, info.selfContainer.hostUuid)
    ensures ip in x.remote && ip !in x.local <==> FirstIsElsewhere(key, info, networks, ip)
  {
    LocalAndRemotePartition(key, x, ip);
    if ip in x.remote {
      RemoteHasFirst(key, info, networks, x, ip);
    }
    if FirstIsElsewhere(key, info, networks, ip) { FirstIsRemote(key, info, networks, x, ip); }
  }

  lemma FirstIsRemote(key: KeyOf, info: Info, networks: set<string>, x: Indexes, ip: string)
    requires AddressKey(key) && IndexesPart(key, x.remote, x.entries, Remote, x.self.hostIp)
    requires FromContainers(key, info, networks, x, |info.containers|)
    requires x.self.hostIp == Lookup(info.agentIps, info.selfContainer.hostUuid)
    requires FirstIsElsewhere(key, info, networks, ip)
    ensures ip in x.remote
  {
    var i: nat :| First(key, info, networks, i) && key(EntryOf(info, info.containers[i])) == ip
      && Lookup(info.agentIps, info.containers[i].hostUuid) != x.self.hostIp;
    var e := Flagged(key, info, x.peersMap, info.containers[i]);
    assert e in x.entries && Belongs(Remote, x.self.hostIp, e) && key(e) == ip;
  }

  lemma RemoteHasFirst(key: KeyOf, info: Info, networks: set<string>, x: Indexes, ip: string)
    requires AddressKey(key) && IndexesPart(key, x.remote, x.entries, Remote, x.self.hostIp)
    requires FromContainers(key, info, networks, x, |info.containers|)
    requires x.self.hostIp == Lookup(info.agentIps, info.selfContainer.hostUuid) && ip in x.remote
    ensures FirstIsElsewhere(key, info, networks, ip)
  {
    var e := x.remote[ip];
    var i: nat :| i < |info.containers| && First(key, info, networks, i)
      && e == Flagged(key, info, x.peersMap, info.containers[i]);
    assert key(EntryOf(info, info.containers[i])) == key(e);
  }

  // ---------------------------------------------------------------- container addresses

  /** The address of a container: its primary address, which the code cuts at the first slash. */
  function Address(c: Container): (ip: string)
    ensures '/' !in c.primaryIp ==> ip == c.primaryIp
  {
    BeforeSlash(c.primaryIp)
  }

  lemma IpKeyIsAddress(info: Info, c: Container)
    ensures IpKey(EntryOf(info, c)) == Address(c)
  {
    BeforeSlashOfSuffixed(c.primaryIp, "16");
    assert c.primaryIp + "/" + "16" == c.primaryIp + "/16";
  }

  /** Container i is the first one of the address on the given networks. */
  ghost predicate FirstOf(info: Info, networks: set<string>, ip: string, i: nat) {
    && i < |info.containers| && Eligible(info.containers[i], networks) && Address(info.containers[i]) == ip
    && forall j :: 0 <= j < i && Eligible(info.containers[j], networks) ==> Address(info.containers[j]) != ip
  }

  lemma FirstIsFirstOf(info: Info, networks: set<string>, i: nat)
    requires i < |info.containers|
    ensures First(IpKey, info, networks, i) <==> FirstOf(info, networks, Address(info.containers[i]), i)
  {
    forall j | 0 <= j < |info.containers|
      ensures IpKey(EntryOf(info, info.containers[j])) == Address(info.containers[j]) {
      IpKeyIsAddress(info, info.containers[j]);
    }
  }

  /** The first container of the address is not on self's host. */
  ghost predicate RemoteAddress(info: Info, networks: set<string>, ip: string) {
    exists i: nat :: FirstOf(info, networks, ip, i)
      && Lookup(info.agentIps, info.containers[i].hostUuid) != Lookup(info.agentIps, info.selfContainer.hostUuid)
  }

  /** With the key the store uses, IsRemote speaks about the containers' own addresses. */
  lemma ElsewhereByAddress(info: Info, networks: set<string>, ip: string)
    ensures FirstIsElsewhere(IpKey, info, networks, ip) <==> RemoteAddress(info, networks, ip)
  {
    forall i: nat | i < |info.containers|
      ensures First(IpKey, info, networks, i) <==> FirstOf(info, networks, Address(info.containers[i]), i)
      ensures IpKey(EntryOf(info, info.containers[i])) == Address(info.containers[i])
    {
      FirstIsFirstOf(info, networks, i);
      IpKeyIsAddress(info, info.containers[i]);
    }
    if RemoteAddress(info, networks, ip) {
      var i: nat :| FirstOf(info, networks, ip, i)
        && Lookup(info.agentIps, info.containers[i].hostUuid) != Lookup(info.agentIps, info.selfContainer.hostUuid);
      assert First(IpKey, info, networks, i);
    }
  }

  /** A peer map built from metadata holds a self entry under self's own address at most. */
  lemma OnlySelfAddressIsSelf(info: Info, peersMap: Index, k: string)
    requires FromPeers(IpKey, info, peersMap) && k in peersMap
    ensures IpKey(peersMap[k]) == k
    ensures peersMap[k].self ==> k == Address(info.selfContainer)
  {
    var c :| IsPeer(info, c) && IpKey(EntryOf(info, c)) == k && peersMap[k] == EntryOf(info, c).(peer := true);
    IpKeyIsAddress(info, c);
    assert EntryOf(info, c).self ==> c.primaryIp == info.selfContainer.primaryIp;
  }

  // ---------------------------------------------------------------- the snapshot in its own fields

  function TextAt(m: map<string, string>, k: string): string { if k in m then m[k] else "" }

  /** A service other than self's that runs the container on a network of self's network name; self
      links to it, or, without links of its own, it bears the name of one that links to self. */
  ghost predicate LinkedBy(info: Info, s: Service, c: Container) {
    && s in info.services && s.system && s.uuid != info.selfService.uuid && c in s.containers
    && TextAt(info.networkNames, c.networkUuid) == info.selfNetworkName
    && (if info.selfService.links != [] then s.stackName + "/" + s.name in info.selfService.links
        else exists t :: t in info.services && t.system && NamesakeLinksTo(t, s, info.selfService))
  }

  predicate NamesakeLinksTo(t: Service, s: Service, self: Service) {
    self.stackName + "/" + self.name in t.links && t.stackName + "/" + t.name == s.stackName + "/" + s.name
  }

  lemma {:induction false} NamedMembers(services: seq<Service>, self: Service, name: string)
    ensures forall s :: s in Named(services, self, name) <==>
      s in services && s.system && s.uuid != self.uuid && s.stackName + "/" + s.name == name
  {
    if services != [] {
      NamedMembers(services[..|services| - 1], self, name);
      assert services == services[..|services| - 1] + [services[|services| - 1]];
    }
  }

  lemma LinkedPeerMeans(info: Info, c: Container)
    ensures LinkedPeer(info, c) <==> exists s :: LinkedBy(info, s, c)
  {
    if LinkedPeer(info, c) {
      var name :| LinkedName(info, name) && Runs(info, Named(info.services, info.selfService, name), c);
      NamedMembers(info.services, info.selfService, name);
      var s :| s in Named(info.services, info.selfService, name) && c in s.containers && OnSelfNetwork(info, c);
      if info.selfService.links == [] {
        var t :| t in info.services && t.system && FullName(info.selfService) in t.links && FullName(t) == name;
        assert NamesakeLinksTo(t, s, info.selfService);
      }
      assert LinkedBy(info, s, c);
    }
    if s :| LinkedBy(info, s, c) {
      var name := FullName(s);
      NamedMembers(info.services, info.selfService, name);
      assert s in Named(info.services, info.selfService, name);
      if info.selfService.links == [] {
        var t :| t in info.services && t.system && NamesakeLinksTo(t, s, info.selfService);
        assert FullName(t) == name;
      }
      assert LinkedName(info, name) && Runs(info, Named(info.services, info.selfService, name), c);
    }
  }

  /** Container i is listed: it is on one of the networks, has an address, shares no other container's
      network, and no earlier such container has its address. */
  ghost predicate ListedAt(info: Info, networks: set<string>, i: nat) {
    && i < |info.containers| && CanBeListed(info.containers[i], networks)
    && forall j :: 0 <= j < i && CanBeListed(info.containers[j], networks) ==>
         Address(info.containers[j]) != Address(info.containers[i])
  }

  predicate CanBeListed(c: Container, networks: set<string>) {
    c.networkUuid in networks && |c.primaryIp| > 0 && |c.networkFrom| == 0
  }

  /** The entry of a listed container: its address with a prefix length of 16, its host's agent address,
      whether it is self, and whether its address is a peer's. */
  function EntryFor(info: Info, peers: set<string>, c: Container): Entry {
    Entry(c.primaryIp + "/16", TextAt(info.agentIps, c.hostUuid), c.primaryIp == info.selfContainer.primaryIp,
      Address(c) in peers)
  }

  /** The entries are exactly those of the listed containers. */
  lemma EntriesMean(info: Info, networks: set<string>, x: Indexes, e: Entry)
    requires FromContainers(IpKey, info, networks, x, |info.containers|)
    ensures e in x.entries <==>
      exists i: nat :: ListedAt(info, networks, i) && e == EntryFor(info, x.peersMap.Keys, info.containers[i])
  {
    forall i: nat | i < |info.containers|
      ensures First(IpKey, info, networks, i) <==> ListedAt(info, networks, i)
      ensures Flagged(IpKey, info, x.peersMap, info.containers[i]) ==
              EntryFor(info, x.peersMap.Keys, info.containers[i])
    {
      ListedIsFirst(info, networks, i);
      IpKeyIsAddress(info, info.containers[i]);
    }
    if i: nat :| ListedAt(info, networks, i) && e == EntryFor(info, x.peersMap.Keys, info.containers[i]) {
      assert First(IpKey, info, networks, i);
    }
  }

  lemma ListedIsFirst(info: Info, networks: set<string>, i: nat)
    requires i < |info.containers|
    ensures First(IpKey, info, networks, i) <==> ListedAt(info, networks, i)
  {
    forall j | 0 <= j < |info.containers|
      ensures IpKey(EntryOf(info, info.containers[j])) == Address(info.containers[j])
    {
      IpKeyIsAddress(info, info.containers[j]);
    }
    forall c ensures CanBeListed(c, networks) == Eligible(c, networks) {}
    if First(IpKey, info, networks, i) {
      forall j | 0 <= j < i && CanBeListed(info.containers[j], networks)
        ensures Address(info.containers[j]) != Address(info.containers[i]) {
        assert Eligible(info.containers[j], networks);
      }
    }
  }

  /** So a container outside the networks, without an address, or on another container's network gives
      no entry of its own address. */
  lemma UnlistedGivesNoEntry(info: Info, networks: set<string>, x: Indexes, e: Entry)
    requires FromContainers(IpKey, info, networks, x, |info.containers|)
    requires forall c :: c in info.containers && c.primaryIp + "/16" == e.ip ==>
      c.networkUuid !in networks || c.primaryIp == "" || c.networkFrom != ""
    ensures e !in x.entries
  {
    EntriesMean(info, networks, x, e);
  }
}
