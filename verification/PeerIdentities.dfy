/** Recovery from stale peer identities: charon is restarted when an installed child of a peer host
    belongs to an SA whose remote identity no peer of that host has. */
module PeerIdentities {
  import opened Entries
  import opened Vici

  /** cleanIP for the address parser in use. */
  type Cleaner = string -> string

  /** childHostIP: the host a child name stands for, or "". */
  type ChildHost = string -> string

  /** A peer entry of another host, by its cleaned address. */
  predicate PeerOn(clean: Cleaner, localHost: string, e: Entry, host: string) {
    host != "" && clean(e.hostIp) == host && host != clean(localHost)
  }

  /** A peer may identify itself by its host's address or by its own overlay address. */
  predicate Identifies(clean: Cleaner, e: Entry, id: string) {
    id == clean(e.hostIp) || (id != "" && id == clean(e.ip))
  }

  ghost predicate ExpectedHost(clean: Cleaner, localHost: string, peers: seq<Entry>, host: string) {
    exists e :: e in peers && PeerOn(clean, localHost, e, host)
  }

  ghost predicate ExpectedIdentity(clean: Cleaner, localHost: string, peers: seq<Entry>, host: string, id: string) {
    exists e :: e in peers && PeerOn(clean, localHost, e, host) && Identifies(clean, e, id)
  }

  type Identities = map<string, set<string>>

  /** Each peer host is listed with the identities of its peers. */
  ghost predicate AreExpected(clean: Cleaner, localHost: string, peers: seq<Entry>, expected: Identities) {
    && (forall host :: host in expected <==> ExpectedHost(clean, localHost, peers, host))
    && (forall host, id :: host in expected && id in expected[host] <==>
      ExpectedIdentity(clean, localHost, peers, host, id))
  }

  function Widened(expected: Identities, host: string, ids: set<string>): Identities {
    expected[host := (if host in expected then expected[host] else {}) + ids]
  }

  lemma ExpectedStep(clean: Cleaner, localHost: string, peers: seq<Entry>, e: Entry, host: string, id: string)
    ensures ExpectedHost(clean, localHost, peers + [e], host) <==>
      ExpectedHost(clean, localHost, peers, host) || PeerOn(clean, localHost, e, host)
    ensures ExpectedIdentity(clean, localHost, peers + [e], host, id) <==>
      ExpectedIdentity(clean, localHost, peers, host, id)
        || (PeerOn(clean, localHost, e, host) && Identifies(clean, e, id))
  {
    assert e in peers + [e] && forall f :: f in peers ==> f in peers + [e];
  }

  /** expectedPeerIdentitiesByHost. */
  method ExpectedPeerIdentities(clean: Cleaner, localHost: string, peers: seq<Entry>) returns (expected: Identities)
    ensures AreExpected(clean, localHost, peers, expected)
  {
    expected := map[];
    for i := 0 to |peers|
      invariant AreExpected(clean, localHost, peers[..i], expected)
    {
      var entry := peers[i];
      var host, overlay := clean(entry.hostIp), clean(entry.ip);
      assert peers[..i + 1] == peers[..i] + [entry];
      ghost var before := expected;
      if host != "" && host != clean(localHost) {
        expected := Widened(expected, host, if overlay != "" then {host, overlay} else {host});
      }
      forall h, id
        ensures h in expected <==> ExpectedHost(clean, localHost, peers[..i + 1], h)
        ensures h in expected && id in expected[h] <==> ExpectedIdentity(clean, localHost, peers[..i + 1], h, id)
      {
        ExpectedStep(clean, localHost, peers[..i], entry, h, id);
        assert h in before && id in before[h] <==> ExpectedIdentity(clean, localHost, peers[..i], h, id);
      }
    }
    assert peers[..|peers|] == peers;
  }

  /** An installed child of a peer host whose SA has an identity that no peer of the host has. */
  ghost predicate StaleIdentity(clean: Cleaner, childHost: ChildHost, localHost: string, peers: seq<Entry>, sa: IkeSa,
                                c: ChildSa) {
    var host, id := childHost(c.name), clean(sa.remoteId);
    && c.state == "INSTALLED" && host != "" && id != ""
    && ExpectedHost(clean, localHost, peers, host) && !ExpectedIdentity(clean, localHost, peers, host, id)
  }

  /** For a child of host h on an SA with identity id: stale exactly when the child is INSTALLED, h is
      another host with a peer, and id is neither the host nor the overlay address of a peer on it. */
  lemma StaleMeans(clean: Cleaner, childHost: ChildHost, localHost: string, peers: seq<Entry>, h: string, id: string,
                   sa: IkeSa, c: ChildSa)
    requires h != "" && id != "" && childHost(c.name) == h && clean(sa.remoteId) == id
    ensures StaleIdentity(clean, childHost, localHost, peers, sa, c) <==>
      && c.state == "INSTALLED" && h != clean(localHost) && id != h
      && (exists e :: e in peers && clean(e.hostIp) == h)
      && (forall e :: e in peers && clean(e.hostIp) == h ==> clean(e.ip) != id)
  {
    if h != clean(localHost) {
      assert forall e :: PeerOn(clean, localHost, e, h) <==> clean(e.hostIp) == h;
    }
  }

  ghost predicate HasStaleIdentity(clean: Cleaner, childHost: ChildHost, localHost: string, peers: seq<Entry>,
                                   sas: seq<IkeSa>) {
    exists sa, c :: sa in sas && c in sa.children && StaleIdentity(clean, childHost, localHost, peers, sa, c)
  }

  method HasStaleChild(clean: Cleaner, childHost: ChildHost, localHost: string, peers: seq<Entry>, expected: Identities,
                       sa: IkeSa)
    returns (stale: bool)
    requires AreExpected(clean, localHost, peers, expected)
    ensures stale <==> exists c :: c in sa.children && StaleIdentity(clean, childHost, localHost, peers, sa, c)
  {
    for j := 0 to |sa.children|
      invariant forall k :: 0 <= k < j ==> !StaleIdentity(clean, childHost, localHost, peers, sa, sa.children[k])
    {
      var c := sa.children[j];
      var host, id := childHost(c.name), clean(sa.remoteId);
      if c.state == "INSTALLED" && host != "" && id != "" && host in expected && id !in expected[host] {
        assert c in sa.children && StaleIdentity(clean, childHost, localHost, peers, sa, c);
        return true;
      }
    }
    stale := false;
  }

  method FindStaleIdentity(clean: Cleaner, childHost: ChildHost, localHost: string, peers: seq<Entry>,
                           expected: Identities, sas: seq<IkeSa>)
    returns (found: bool)
    requires AreExpected(clean, localHost, peers, expected)
    ensures found <==> HasStaleIdentity(clean, childHost, localHost, peers, sas)
  {
    for i := 0 to |sas|
      invariant forall k, c :: 0 <= k < i && c in sas[k].children ==>
        !StaleIdentity(clean, childHost, localHost, peers, sas[k], c)
    {
      var stale := HasStaleChild(clean, childHost, localHost, peers, expected, sas[i]);
      if stale { return true; }
    }
    found := false;
  }

  /** restartForStalePeerIdentities: nil means no listed SA has a stale peer identity. Otherwise
      charon may have been killed, and only for a stale identity. */
  method RestartForStalePeerIdentities<Conf>(clean: Cleaner, childHost: ChildHost, localHost: string, peers: seq<Entry>,
                                             charon: Charon<Conf>)
    returns (ok: bool)
    modifies charon`sas, charon`conns
    ensures ok ==> !HasStaleIdentity(clean, childHost, localHost, peers, old(charon.sas))
    ensures !HasStaleIdentity(clean, childHost, localHost, peers, old(charon.sas)) || ok ==>
      charon.sas == old(charon.sas) && charon.conns == old(charon.conns)
    ensures (charon.sas == old(charon.sas) && charon.conns == old(charon.conns))
      || (charon.sas == [] && charon.conns == map[])
  {
    var expected := ExpectedPeerIdentities(clean, localHost, peers);
    if expected == map[] { return true; }
    var listing;
    ok, listing := charon.ListSas();
    if !ok { return; }
    var found := FindStaleIdentity(clean, childHost, localHost, peers, expected, listing);
    if found { charon.Kill(); }
    ok := !found;
  }
}
