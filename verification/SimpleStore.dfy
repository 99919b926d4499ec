/** The file-backed store: the same indexes rebuilt from a plain list of entries. */
module SimpleStore {
  import opened Text
  import opened Entries
  import M = MetadataStore

  datatype Config = Config(hostIp: string, cidrIp: string, local: M.Index, remote: M.Index, entries: seq<Entry>,
                           peers: M.Index, remoteNonPeers: M.Index)

  /** net.ParseCIDR, the address part. */
  type CidrParser = string -> Option<string>

  /** The first entry marked as self, if any. */
  function SelfIndex(entries: seq<Entry>): (r: Option<nat>)
    ensures r.Some? ==> r.value < |entries| && entries[r.value].self
    ensures r.Some? ==> forall j :: 0 <= j < r.value ==> !entries[j].self
    ensures r.None? ==> forall j :: 0 <= j < |entries| ==> !entries[j].self
  {
    if entries == [] then None
    else
      var front := SelfIndex(entries[..|entries| - 1]);
      if front.Some? then front
      else if entries[|entries| - 1].self then Some(|entries| - 1) else None
  }

  method FindSelf(entries: seq<Entry>) returns (at: Option<nat>)
    ensures at.Some? ==> at.value < |entries| && entries[at.value].self
    ensures at.Some? ==> forall j :: 0 <= j < at.value ==> !entries[j].self
    ensures at.None? ==> forall j :: 0 <= j < |entries| ==> !entries[j].self
  {
    for i := 0 to |entries|
      invariant forall j :: 0 <= j < i ==> !entries[j].self
    {
      if entries[i].self { return Some(i); }
    }
    return None;
  }

  /** The entries that name an address. */
  function Listed(entries: seq<Entry>): seq<Entry> {
    if entries == [] then []
    else
      var front, last := Listed(entries[..|entries| - 1]), entries[|entries| - 1];
      if last.ip == "" then front else front + [last]
  }

  /** One part of the entries by address; the last listed entry of an address wins. */
  function IndexBy(key: M.KeyOf, entries: seq<Entry>, part: M.Part, host: string): M.Index {
    if entries == [] then map[]
    else
      var front, last := IndexBy(key, entries[..|entries| - 1], part, host), entries[|entries| - 1];
      if M.Belongs(part, host, last) then front[key(last) := last] else front
  }

  function ConfigOf(key: M.KeyOf, entries: seq<Entry>, hostIp: string, cidrIp: string): Config {
    Config(hostIp, cidrIp, IndexBy(key, entries, M.Local, hostIp), IndexBy(key, entries, M.Remote, hostIp), entries,
           IndexBy(key, entries, M.Peers, hostIp), IndexBy(key, entries, M.RemoteNonPeer, hostIp))
  }

  lemma {:induction false} IndexByKeys(key: M.KeyOf, entries: seq<Entry>, part: M.Part, host: string, ip: string)
    ensures ip in IndexBy(key, entries, part, host) <==>
      exists e :: e in entries && M.Belongs(part, host, e) && key(e) == ip
  {
    if entries != [] {
      var front, last := entries[..|entries| - 1], entries[|entries| - 1];
      assert entries == front + [last];
      IndexByKeys(key, front, part, host, ip);
    }
  }

  /** The listed entries of the address, if any, are all on other hosts. */
  ghost predicate OnlyElsewhere(key: M.KeyOf, c: Config, ip: string) {
    && (exists e :: e in c.entries && key(e) == ip)
    && (forall e :: e in c.entries && key(e) == ip ==> e.hostIp != c.hostIp)
  }

  method BuildMaps(key: M.KeyOf, entries: seq<Entry>, hostIp: string, cidrIp: string) returns (c: Config)
    ensures c == ConfigOf(key, Listed(entries), hostIp, cidrIp)
  {
    c := Config(hostIp, cidrIp, map[], map[], [], map[], map[]);
    for i := 0 to |entries|
      invariant c == ConfigOf(key, Listed(entries[..i]), hostIp, cidrIp)
    {
      var e := entries[i];
      assert entries[..i + 1][..i] == entries[..i];
      if e.ip == "" { continue; }
      ghost var before := c.entries;
      var ip := key(e);
      if e.hostIp == hostIp {
        c := c.(local := c.local[ip := e]);
      } else {
        c := c.(remote := c.remote[ip := e]);
        if !e.peer { c := c.(remoteNonPeers := c.remoteNonPeers[ip := e]); }
      }
      c := c.(entries := c.entries + [e]);
      if e.peer { c := c.(peers := c.peers[ip := e]); }
      assert c.entries[..|before|] == before;
    }
    assert entries[..|entries|] == entries;
  }

  /** What a reload yields. The self entry's own address must parse even under an override. */
  function Loaded(key: M.KeyOf, cidr: CidrParser, ipOverride: string, file: seq<Entry>): Option<Config> {
    var at := SelfIndex(file);
    if at.None? || cidr(file[at.value].ip).None? || (ipOverride != "" && cidr(ipOverride).None?) then None
    else
      var self := file[at.value];
      var entries := if ipOverride == "" then file else file[at.value := self.(ip := ipOverride)];
      Some(ConfigOf(key, Listed(entries), self.hostIp, cidr(if ipOverride == "" then self.ip else ipOverride).value))
  }

  class Simple {
    const key: M.KeyOf
    const cidr: CidrParser
    const ipOverride: string
    var config: Config

    /** The maps are those of the entries. */
    ghost predicate Valid()
      reads this
    {
      config == ConfigOf(key, config.entries, config.hostIp, config.cidrIp)
    }

    constructor (key: M.KeyOf, cidr: CidrParser, ipOverride: string)
      ensures Valid() && this.key == key && this.cidr == cidr && this.ipOverride == ipOverride
    {
      this.key, this.cidr, this.ipOverride := key, cidr, ipOverride;
      config := Config("", "", map[], map[], [], map[], map[]);
    }

    /** Reload from the file's entries; the configuration is swapped only when all of it succeeds. */
    method Reload(file: Option<seq<Entry>>) returns (ok: bool)
      requires Valid()
      modifies this
      ensures Valid()
      ensures ok <==> file.Some? && Loaded(key, cidr, ipOverride, file.value).Some?
      ensures config == if ok then Loaded(key, cidr, ipOverride, file.value).value else old(config)
    {
      if file.None? { return false; }
      var entries := file.value;
      var at := FindSelf(entries);
      if at.None? { return false; }
      var self := entries[at.value];
      if ipOverride != "" { entries := entries[at.value := self.(ip := ipOverride)]; }
      var ip := cidr(self.ip);
      if ip.None? { return false; }
      var c := BuildMaps(key, entries, self.hostIp, ip.value);
      if ipOverride != "" {
        ip := cidr(ipOverride);
        if ip.None? { return false; }
      }
      config := c.(cidrIp := ip.value);
      return true;
    }

    /** An address is remote exactly when it is listed and only on other hosts. */
    method IsRemote(ip: string) returns (remote: bool)
      requires Valid()
      ensures remote <==> OnlyElsewhere(key, config, ip)
    {
      IndexByKeys(key, config.entries, M.Local, config.hostIp, ip);
      IndexByKeys(key, config.entries, M.Remote, config.hostIp, ip);
      if ip in config.local { return false; }
      remote := ip in config.remote;
    }
  }

  // ---------------------------------------------------------------- agreement with the metadata store

  lemma DistinctFront(key: M.KeyOf, front: seq<Entry>, last: Entry)
    requires M.DistinctKeys(key, front + [last])
    ensures M.DistinctKeys(key, front) && forall f :: f in front ==> key(f) != key(last)
  {
    var entries := front + [last];
    assert forall i :: 0 <= i < |front| ==> entries[i] == front[i];
    assert entries[|front|] == last;
  }

  /** With distinct addresses, indexing a part gives the one index of that part. */
  lemma {:induction false} IndexByIsIndex(key: M.KeyOf, entries: seq<Entry>, part: M.Part, host: string)
    requires M.DistinctKeys(key, entries)
    ensures M.IndexesPart(key, IndexBy(key, entries, part, host), entries, part, host)
  {
    if entries != [] {
      var front, last := entries[..|entries| - 1], entries[|entries| - 1];
      assert entries == front + [last];
      DistinctFront(key, front, last);
      IndexByIsIndex(key, front, part, host);
      M.PartExtends(key, IndexBy(key, front, part, host), front, part, host, last);
    }
  }

  lemma PartIndexUnique(key: M.KeyOf, a: M.Index, b: M.Index, entries: seq<Entry>, part: M.Part, host: string)
    requires M.IndexesPart(key, a, entries, part, host) && M.IndexesPart(key, b, entries, part, host)
    ensures a == b
  {
    assert forall k :: k in a ==> k in b && b[k] == a[k];
    assert forall k :: k in b ==> k in a;
  }

  lemma {:induction false} AllListed(entries: seq<Entry>)
    requires forall e :: e in entries ==> e.ip != ""
    ensures Listed(entries) == entries
  {
    if entries != [] {
      var front, last := entries[..|entries| - 1], entries[|entries| - 1];
      assert entries == front + [last];
      assert forall e :: e in front ==> e in entries;
      assert last in entries;
      AllListed(front);
    }
  }

  /** The maps of the two stores are the same, and so are their IsRemote answers. */
  ghost predicate SameIndexes(c: Config, x: M.Indexes) {
    && c.local == x.local && c.remote == x.remote && c.remoteNonPeers == x.remoteNonPeers
    && forall ip :: (ip in c.remote && ip !in c.local) <==> (ip in x.remote && ip !in x.local)
  }

  /** The peers are the metadata peers that occur in the entries. */
  ghost predicate KeepsPeers(key: M.KeyOf, c: Config, x: M.Indexes) {
    forall k :: k in c.peers <==> k in x.peersMap && exists e :: e in x.entries && key(e) == k
  }

  /** The load succeeded exactly when a self entry is listed and its address parses. It kept the
      entries; its peers are the metadata peers that occur in them; and it rebuilt the same indexes
      exactly when the self entry carries the self host's address. */
  ghost predicate IsReload(key: M.KeyOf, cidr: CidrParser, x: M.Indexes, loaded: Option<Config>) {
    var at := SelfIndex(x.entries);
    && (loaded.Some? <==> at.Some? && cidr(x.entries[at.value].ip).Some?)
    && (loaded.Some? ==>
      var c := loaded.value;
      && c.entries == x.entries && KeepsPeers(key, c, x)
      && (SameIndexes(c, x) <==> x.entries[at.value].hostIp == x.self.hostIp))
  }

  /** Loading a metadata store's entries without an override is such a reload. */
  lemma SimpleRebuildsMetadata(key: M.KeyOf, cidr: CidrParser, x: M.Indexes)
    requires M.Consistent(key, x) && forall e :: e in x.entries ==> e.ip != ""
    ensures IsReload(key, cidr, x, Loaded(key, cidr, "", x.entries))
  {
    var r := Loaded(key, cidr, "", x.entries);
    if r.Some? {
      AllListed(x.entries);
      var at, c := SelfIndex(x.entries).value, r.value;
      IndexByIsIndex(key, x.entries, M.Peers, c.hostIp);
      forall k ensures k in c.peers <==> k in x.peersMap && exists e :: e in x.entries && key(e) == k {
        if k in c.peers { assert c.peers[k] in x.entries; }
        if e :| e in x.entries && key(e) == k && k in x.peersMap { assert M.Belongs(M.Peers, c.hostIp, e); }
      }
      if c.hostIp == x.self.hostIp {
        SameHostSameIndexes(key, x, c);
      } else {
        OtherHostOtherIndexes(key, x, c, at);
      }
    }
  }

  lemma SameHostSameIndexes(key: M.KeyOf, x: M.Indexes, c: Config)
    requires M.Consistent(key, x) && c == ConfigOf(key, x.entries, x.self.hostIp, c.cidrIp)
    ensures SameIndexes(c, x)
  {
    var h := x.self.hostIp;
    IndexByIsIndex(key, x.entries, M.Local, h);
    IndexByIsIndex(key, x.entries, M.Remote, h);
    IndexByIsIndex(key, x.entries, M.RemoteNonPeer, h);
    PartIndexUnique(key, c.local, x.local, x.entries, M.Local, h);
    PartIndexUnique(key, c.remote, x.remote, x.entries, M.Remote, h);
    PartIndexUnique(key, c.remoteNonPeers, x.remoteNonPeers, x.entries, M.RemoteNonPeer, h);
  }

  lemma OtherHostOtherIndexes(key: M.KeyOf, x: M.Indexes, c: Config, at: nat)
    requires M.Consistent(key, x) && at < |x.entries| && x.entries[at].hostIp != x.self.hostIp
    requires c == ConfigOf(key, x.entries, x.entries[at].hostIp, c.cidrIp)
    ensures c.local != x.local
  {
    var e := x.entries[at];
    IndexByIsIndex(key, x.entries, M.Local, e.hostIp);
    assert M.Belongs(M.Local, e.hostIp, e) && c.local[key(e)] == e;
    assert key(e) in x.local ==> x.local[key(e)].hostIp == x.self.hostIp;
  }

  /** Entries built from containers always name an address. */
  lemma MetadataEntriesNameAddresses(key: M.KeyOf, info: M.Info, networks: set<string>, x: M.Indexes)
    requires M.FromContainers(key, info, networks, x, |info.containers|)
    ensures forall e :: e in x.entries ==> e.ip != ""
  {
  }

  /** The first container of self's own address is on the given host. */
  ghost predicate SelfListedOn(key: M.KeyOf, info: M.Info, networks: set<string>, host: string) {
    exists i: nat :: M.First(key, info, networks, i) && SelfContainerOn(info, i, host)
  }

  predicate SelfContainerOn(info: M.Info, i: nat, host: string) {
    && i < |info.containers| && info.containers[i].primaryIp == info.selfContainer.primaryIp
    && M.Lookup(info.agentIps, info.containers[i].hostUuid) == host
  }

  ghost predicate SelfListed(key: M.KeyOf, info: M.Info, networks: set<string>) {
    exists host :: SelfListedOn(key, info, networks, host)
  }

  function SelfIp(info: M.Info): string { info.selfContainer.primaryIp + "/16" }

  /** The key is read from the address text alone. */
  ghost predicate KeyedByIp(key: M.KeyOf) {
    forall e: Entry, f: Entry :: e.ip == f.ip ==> key(e) == key(f)
  }

  /** The self entry among a metadata store's entries: present exactly when self's own container or
      a namesake is the first of its address, and then with that container's host. */
  ghost predicate SelfEntryIsFirst(key: M.KeyOf, info: M.Info, networks: set<string>, x: M.Indexes) {
    var at := SelfIndex(x.entries);
    if at.None? then !SelfListed(key, info, networks)
    else
      && x.entries[at.value].ip == SelfIp(info) && SelfListed(key, info, networks)
      && forall host :: SelfListedOn(key, info, networks, host) <==> x.entries[at.value].hostIp == host
  }

  lemma SelfEntry(key: M.KeyOf, info: M.Info, networks: set<string>, x: M.Indexes)
    requires KeyedByIp(key) && M.Consistent(key, x) && M.FromContainers(key, info, networks, x, |info.containers|)
    ensures SelfEntryIsFirst(key, info, networks, x)
  {
    var at := SelfIndex(x.entries);
    forall host | SelfListedOn(key, info, networks, host) ensures at.Some? && x.entries[at.value].hostIp == host {
      var f := ContainerEntry(key, info, networks, x, host);
      assert at.Some?;
      var e := x.entries[at.value];
      SelfEntryIsContainer(key, info, networks, x, e);
      assert key(e) == key(f);
      M.SameKeySameEntry(key, x.entries, e, f);
    }
    if at.Some? { SelfEntryIsContainer(key, info, networks, x, x.entries[at.value]); }
  }

  lemma SelfEntryIsContainer(key: M.KeyOf, info: M.Info, networks: set<string>, x: M.Indexes, e: Entry)
    requires M.FromContainers(key, info, networks, x, |info.containers|) && e in x.entries && e.self
    ensures e.ip == SelfIp(info) && SelfListedOn(key, info, networks, e.hostIp)
  {
    var i: nat :| i < |info.containers| && M.First(key, info, networks, i)
      && e == M.Flagged(key, info, x.peersMap, info.containers[i]);
    assert SelfContainerOn(info, i, e.hostIp);
  }

  lemma ContainerEntry(key: M.KeyOf, info: M.Info, networks: set<string>, x: M.Indexes, host: string) returns (e: Entry)
    requires M.FromContainers(key, info, networks, x, |info.containers|) && SelfListedOn(key, info, networks, host)
    ensures e in x.entries && e.self && e.ip == SelfIp(info) && e.hostIp == host
  {
    var i: nat :| M.First(key, info, networks, i) && SelfContainerOn(info, i, host);
    e := M.Flagged(key, info, x.peersMap, info.containers[i]);
  }

  /** What reloading a refreshed store's entries yields. */
  ghost predicate Rebuilds(key: M.KeyOf, cidr: CidrParser, info: M.Info, networks: set<string>, x: M.Indexes,
                           loaded: Option<Config>) {
    && (loaded.Some? <==> SelfListed(key, info, networks) && cidr(SelfIp(info)).Some?)
    && (loaded.Some? ==>
      var c := loaded.value;
      && c.entries == x.entries
      && KeepsPeers(key, c, x)
      && (SameIndexes(c, x) <==>
        SelfListedOn(key, info, networks, M.Lookup(info.agentIps, info.selfContainer.hostUuid))))
  }

  /** Reloading the entries of a refreshed metadata store, with no override, succeeds exactly when
      the first container of self's address is listed and that address parses; it then keeps the
      entries, and rebuilds the same indexes exactly when that container is on self's host. */
  lemma ReloadRebuilds(key: M.KeyOf, cidr: CidrParser, info: M.Info, networks: set<string>, x: M.Indexes)
    requires KeyedByIp(key) && M.Consistent(key, x) && M.FromContainers(key, info, networks, x, |info.containers|)
    requires x.self.hostIp == M.Lookup(info.agentIps, info.selfContainer.hostUuid)
    ensures Rebuilds(key, cidr, info, networks, x, Loaded(key, cidr, "", x.entries))
  {
    MetadataEntriesNameAddresses(key, info, networks, x);
    SelfEntry(key, info, networks, x);
    SimpleRebuildsMetadata(key, cidr, x);
    ReloadInContainers(key, cidr, info, networks, x, Loaded(key, cidr, "", x.entries));
  }

  lemma ReloadInContainers(key: M.KeyOf, cidr: CidrParser, info: M.Info, networks: set<string>, x: M.Indexes,
                           loaded: Option<Config>)
    requires IsReload(key, cidr, x, loaded) && SelfEntryIsFirst(key, info, networks, x)
    requires x.self.hostIp == M.Lookup(info.agentIps, info.selfContainer.hostUuid)
    ensures Rebuilds(key, cidr, info, networks, x, loaded)
  {
  }

  /** The address without its prefix length is such a key. */
  lemma IpKeyIsKeyedByIp()
    ensures KeyedByIp(IpKey) && M.AddressKey(IpKey)
  {
  }

  /** The first container with self's primary address is on the given host. */
  ghost predicate FirstSelfOn(info: M.Info, networks: set<string>, host: string) {
    exists i: nat :: M.FirstOf(info, networks, M.Address(info.selfContainer), i) && SelfContainerOn(info, i, host)
  }

  lemma SelfListedByAddress(info: M.Info, networks: set<string>, host: string)
    ensures SelfListedOn(IpKey, info, networks, host) <==> FirstSelfOn(info, networks, host)
  {
    if SelfListedOn(IpKey, info, networks, host) {
      var i: nat :| M.First(IpKey, info, networks, i) && SelfContainerOn(info, i, host);
      M.FirstIsFirstOf(info, networks, i);
    }
    if FirstSelfOn(info, networks, host) {
      var i: nat :| M.FirstOf(info, networks, M.Address(info.selfContainer), i) && SelfContainerOn(info, i, host);
      M.FirstIsFirstOf(info, networks, i);
    }
  }

  /** From metadata to a file and back, for every snapshot, with the stores' own key: the reload
      rebuilds what the refresh built, and both speak about the containers' primary addresses. */
  method RefreshAndReload(info: M.Info, cidr: CidrParser) returns (store: M.Store, simple: Simple, ok: bool)
    ensures store.Valid() && simple.Valid() && store.key == simple.key == IpKey && store.info == info
    ensures Rebuilds(IpKey, cidr, info, store.networks, store.indexes, if ok then Some(simple.config) else None)
    ensures forall host :: SelfListedOn(IpKey, info, store.networks, host) <==> FirstSelfOn(info, store.networks, host)
    ensures forall ip :: ip in store.indexes.remote && ip !in store.indexes.local <==>
      M.RemoteAddress(info, store.networks, ip)
  {
    IpKeyIsKeyedByIp();
    store, simple, ok := RefreshAndReloadBy(IpKey, info, cidr);
    forall host ensures SelfListedOn(IpKey, info, store.networks, host) <==> FirstSelfOn(info, store.networks, host) {
      SelfListedByAddress(info, store.networks, host);
    }
    forall ip ensures ip in store.indexes.remote && ip !in store.indexes.local <==>
      M.RemoteAddress(info, store.networks, ip) {
      M.RemoteMeansFirstContainerElsewhere(IpKey, info, store.networks, store.indexes, ip);
      M.ElsewhereByAddress(info, store.networks, ip);
    }
  }

  method RefreshAndReloadBy(key: M.KeyOf, info: M.Info, cidr: CidrParser)
    returns (store: M.Store, simple: Simple, ok: bool)
    requires KeyedByIp(key) && M.AddressKey(key)
    ensures store.Valid() && simple.Valid() && store.key == simple.key == key && store.info == info
    ensures Rebuilds(key, cidr, info, store.networks, store.indexes, if ok then Some(simple.config) else None)
  {
    store := new M.Store(key);
    store.DoInternalRefresh(info);
    simple := new Simple(key, cidr, "");
    ReloadRebuilds(key, cidr, info, store.networks, store.indexes);
    ok := simple.Reload(Some(store.indexes.entries));
  }

  // ---------------------------------------------------------------- the file in its own fields

  lemma {:induction false} ListedMeans(entries: seq<Entry>, e: Entry)
    ensures e in Listed(entries) <==> e in entries && e.ip != ""
  {
    if entries != [] {
      ListedMeans(entries[..|entries| - 1], e);
      assert entries == entries[..|entries| - 1] + [entries[|entries| - 1]];
    }
  }

  /** The first self entry of the file is at the given place. */
  predicate FirstSelf(file: seq<Entry>, at: nat) {
    at < |file| && file[at].self && forall j :: 0 <= j < at ==> !file[j].self
  }

  /** Entry i as loaded: an override replaces the address of the first self entry. */
  function EntryAt(file: seq<Entry>, ipOverride: string, at: nat, i: nat): Entry
    requires i < |file|
  {
    if i == at && ipOverride != "" then file[i].(ip := ipOverride) else file[i]
  }

  /** A reload succeeds exactly when a self entry is listed whose own address parses, and the override
      as well if there is one; it takes its host from that entry and its address from the override, and
      keeps exactly the entries that then name an address. */
  lemma LoadedMeans(key: M.KeyOf, cidr: CidrParser, ipOverride: string, file: seq<Entry>, at: nat)
    requires FirstSelf(file, at)
    ensures var r := Loaded(key, cidr, ipOverride, file);
      && (r.Some? <==> cidr(file[at].ip).Some? && (ipOverride == "" || cidr(ipOverride).Some?))
      && (r.Some? ==>
        && r.value.hostIp == file[at].hostIp
        && Some(r.value.cidrIp) == cidr(EntryAt(file, ipOverride, at, at).ip)
        && forall e :: e in r.value.entries <==>
          e.ip != "" && exists i: nat :: i < |file| && e == EntryAt(file, ipOverride, at, i))
  {
    assert SelfIndex(file) == Some(at);
    var entries := if ipOverride == "" then file else file[at := file[at].(ip := ipOverride)];
    forall e
      ensures e in Listed(entries) <==>
        e.ip != "" && exists i: nat :: i < |file| && e == EntryAt(file, ipOverride, at, i)
    {
      ListedMeans(entries, e);
      assert forall i: nat :: i < |file| ==> entries[i] == EntryAt(file, ipOverride, at, i);
    }
  }

  lemma NoSelfNoLoad(key: M.KeyOf, cidr: CidrParser, ipOverride: string, file: seq<Entry>)
    requires forall i :: 0 <= i < |file| ==> !file[i].self
    ensures Loaded(key, cidr, ipOverride, file).None?
  {
  }

  /** Of the entries of one address and part, the last one listed is in the part's map. */
  lemma {:induction false} LastListedWins(key: M.KeyOf, entries: seq<Entry>, part: M.Part, host: string, i: nat)
    requires i < |entries| && M.Belongs(part, host, entries[i])
    requires forall j :: i < j < |entries| && M.Belongs(part, host, entries[j]) ==> key(entries[j]) != key(entries[i])
    ensures key(entries[i]) in IndexBy(key, entries, part, host)
    ensures IndexBy(key, entries, part, host)[key(entries[i])] == entries[i]
  {
    var n := |entries| - 1;
    if i < n {
      LastListedWins(key, entries[..n], part, host, i);
    }
  }

  /** The maps hold the addresses of the entries on self's host, on other hosts, of the peers, and of
      those on other hosts that are no peers. */
  lemma MapsMean(key: M.KeyOf, entries: seq<Entry>, host: string, cidrIp: string, k: string)
    ensures var c := ConfigOf(key, entries, host, cidrIp);
      && (k in c.local <==> exists e :: e in entries && key(e) == k && e.hostIp == host)
      && (k in c.remote <==> exists e :: e in entries && key(e) == k && e.hostIp != host)
      && (k in c.peers <==> exists e :: e in entries && key(e) == k && e.peer)
      && (k in c.remoteNonPeers <==> exists e :: e in entries && key(e) == k && e.hostIp != host && !e.peer)
  {
    IndexByKeys(key, entries, M.Local, host, k);
    IndexByKeys(key, entries, M.Remote, host, k);
    IndexByKeys(key, entries, M.Peers, host, k);
    IndexByKeys(key, entries, M.RemoteNonPeer, host, k);
  }
}
