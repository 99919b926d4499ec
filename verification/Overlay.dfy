/** The IPsec overlay object and its configure pass over one store snapshot. */
module Overlay {
  import opened Text
  import opened Entries
  import opened Vici
  import opened ChildNames
  import Own = Ownership
  import opened Xfrm
  import Initiation
  import Peers = PeerIdentities
  import Health

  /** What configure reads from the store: self's host address, self's overlay address, entries, and
      the peer entries in any order. */
  datatype Snapshot = Snapshot(localHost: string, localIp: string, entries: seq<Entry>, peers: seq<Entry>)

  /** net.ParseCIDR of an entry's address: its network, and its address as a host network. */
  datatype Cidr = Cidr(net: string, direct: string)
  type CidrParser = string -> Option<Cidr>

  function RemoteHosts(entries: seq<Entry>, localHost: string): set<string> {
    if entries == [] then {}
    else
      var front, last := RemoteHosts(entries[..|entries| - 1], localHost), entries[|entries| - 1];
      if last.hostIp == localHost then front else front + {last.hostIp}
  }

  /** The hosts of the entries that are not self's. */
  lemma {:induction false} RemoteHostsMean(entries: seq<Entry>, localHost: string, h: string)
    ensures h in RemoteHosts(entries, localHost) <==> h != localHost && exists e :: e in entries && e.hostIp == h
  {
    if entries != [] {
      RemoteHostsMean(entries[..|entries| - 1], localHost, h);
      assert entries == entries[..|entries| - 1] + [entries[|entries| - 1]];
    }
  }

  lemma RemoteHostsStep(entries: seq<Entry>, localHost: string, i: nat)
    requires i < |entries|
    ensures RemoteHosts(entries[..i + 1], localHost) ==
            RemoteHosts(entries[..i], localHost) + if entries[i].hostIp == localHost then {} else {entries[i].hostIp}
  {
    assert entries[..i + 1][..i] == entries[..i];
  }

  function IpText(parse: AddressParser, s: string): string {
    var r := parse(s);
    if r.Some? then r.value else "<nil>"
  }

  /** The policy targets of the remote entries whose address parses. */
  function Targets(parse: AddressParser, cidr: CidrParser, entries: seq<Entry>, localHost: string,
                   tunnelIp: string): seq<Target> {
    if entries == [] then []
    else
      var front, e := Targets(parse, cidr, entries[..|entries| - 1], localHost, tunnelIp), entries[|entries| - 1];
      if e.hostIp == localHost || cidr(e.ip).None? then front
      else front + [Target(IpText(parse, tunnelIp), IpText(parse, e.hostIp), cidr(e.ip).value.net,
        cidr(e.ip).value.direct)]
  }

  /** The entry is remote and parses, and the selector's tunnel for it runs from src to dst. */
  ghost predicate EntryRole(parse: AddressParser, cidr: CidrParser, e: Entry, localHost: string, tunnelIp: string,
                            s: Selector, src: string, dst: string) {
    && e.hostIp != localHost && cidr(e.ip).Some?
    && (var local := if parse(tunnelIp).Some? then parse(tunnelIp).value else "<nil>";
        var remote := if parse(e.hostIp).Some? then parse(e.hostIp).value else "<nil>";
        var c := cidr(e.ip).value;
        || (s == Selector(Out, c.net, c.direct) && src == local && dst == remote)
        || (s == Selector(In, c.direct, c.net) && src == remote && dst == local)
        || (s == Selector(Fwd, c.direct, c.net) && src == remote && dst == local))
  }

  lemma {:induction false} TargetsAre(parse: AddressParser, cidr: CidrParser, entries: seq<Entry>, localHost: string,
                                      tunnelIp: string, t: Target)
    ensures t in Targets(parse, cidr, entries, localHost, tunnelIp) <==>
      exists e :: e in entries && IsTarget(parse, cidr, e, localHost, tunnelIp, t)
  {
    if entries != [] {
      var front, last := entries[..|entries| - 1], entries[|entries| - 1];
      TargetsAre(parse, cidr, front, localHost, tunnelIp, t);
      assert entries == front + [last];
      assert t in Targets(parse, cidr, entries, localHost, tunnelIp) <==>
        t in Targets(parse, cidr, front, localHost, tunnelIp) || IsTarget(parse, cidr, last, localHost, tunnelIp, t);
      if e :| e in front && IsTarget(parse, cidr, e, localHost, tunnelIp, t) { assert e in entries; }
    }
  }

  predicate IsTarget(parse: AddressParser, cidr: CidrParser, e: Entry, localHost: string, tunnelIp: string, t: Target) {
    && e.hostIp != localHost && cidr(e.ip).Some?
    && t == Target(IpText(parse, tunnelIp), IpText(parse, e.hostIp), cidr(e.ip).value.net, cidr(e.ip).value.direct)
  }

  lemma TargetRole(parse: AddressParser, cidr: CidrParser, e: Entry, localHost: string, tunnelIp: string, t: Target,
                   s: Selector, src: string, dst: string)
    requires IsTarget(parse, cidr, e, localHost, tunnelIp, t)
    ensures Role(t, s, src, dst) <==> EntryRole(parse, cidr, e, localHost, tunnelIp, s, src, dst)
  {
  }

  /** The targets' roles are those of the entries. */
  lemma TargetsHaveEntryRoles(parse: AddressParser, cidr: CidrParser, entries: seq<Entry>, localHost: string,
                              tunnelIp: string, s: Selector, src: string, dst: string)
    ensures Tunnel(Targets(parse, cidr, entries, localHost, tunnelIp), s, src, dst) <==>
      exists e :: e in entries && EntryRole(parse, cidr, e, localHost, tunnelIp, s, src, dst)
  {
    var ts := Targets(parse, cidr, entries, localHost, tunnelIp);
    if t :| t in ts && Role(t, s, src, dst) {
      TargetsAre(parse, cidr, entries, localHost, tunnelIp, t);
      var e :| e in entries && IsTarget(parse, cidr, e, localHost, tunnelIp, t);
      TargetRole(parse, cidr, e, localHost, tunnelIp, t, s, src, dst);
    }
    if e :| e in entries && EntryRole(parse, cidr, e, localHost, tunnelIp, s, src, dst) {
      var t := Target(IpText(parse, tunnelIp), IpText(parse, e.hostIp), cidr(e.ip).value.net, cidr(e.ip).value.direct);
      assert IsTarget(parse, cidr, e, localHost, tunnelIp, t);
      TargetsAre(parse, cidr, entries, localHost, tunnelIp, t);
      TargetRole(parse, cidr, e, localHost, tunnelIp, t, s, src, dst);
    }
  }

  /** The overlay addresses of the remote entries are pairwise different. */
  ghost predicate DistinctOverlayIps(cidr: CidrParser, entries: seq<Entry>, localHost: string) {
    forall i, j :: 0 <= i < j < |entries| && entries[i].hostIp != localHost && entries[j].hostIp != localHost
      && cidr(entries[i].ip).Some? && cidr(entries[j].ip).Some?
      ==> cidr(entries[i].ip).value.direct != cidr(entries[j].ip).value.direct
  }

  /** Printed networks contain no dash. */
  ghost predicate DashlessCidrs(cidr: CidrParser) {
    forall s :: cidr(s).Some? ==> '-' !in cidr(s).value.net && '-' !in cidr(s).value.direct
  }

  lemma {:induction false} TargetsAreDashless(parse: AddressParser, cidr: CidrParser, entries: seq<Entry>,
                                              localHost: string, tunnelIp: string)
    requires Canonicalizing(parse) && DashlessCidrs(cidr)
    ensures forall t :: t in Targets(parse, cidr, entries, localHost, tunnelIp) ==> DashlessTarget(t)
  {
    if entries != [] {
      TargetsAreDashless(parse, cidr, entries[..|entries| - 1], localHost, tunnelIp);
      forall s ensures '-' !in IpText(parse, s) { if parse(s).Some? { assert parse(parse(s).value).Some?; } }
    }
  }

  lemma {:induction false} TargetsAreDistinct(parse: AddressParser, cidr: CidrParser, entries: seq<Entry>,
                                              localHost: string, tunnelIp: string)
    requires DistinctOverlayIps(cidr, entries, localHost)
    ensures DistinctTargets(Targets(parse, cidr, entries, localHost, tunnelIp))
    ensures forall t :: t in Targets(parse, cidr, entries, localHost, tunnelIp) ==>
      exists i :: 0 <= i < |entries| && entries[i].hostIp != localHost && cidr(entries[i].ip).Some?
        && t.direct == cidr(entries[i].ip).value.direct
  {
    if entries != [] {
      var front := entries[..|entries| - 1];
      assert forall i :: 0 <= i < |front| ==> front[i] == entries[i];
      TargetsAreDistinct(parse, cidr, front, localHost, tunnelIp);
      var ts := Targets(parse, cidr, front, localHost, tunnelIp);
      var e := entries[|entries| - 1];
      if e.hostIp != localHost && cidr(e.ip).Some? {
        forall x | 0 <= x < |ts| ensures ts[x].direct != cidr(e.ip).value.direct {
          var t := ts[x];
          assert t in ts;
          var i :| 0 <= i < |front| && front[i].hostIp != localHost && cidr(front[i].ip).Some?
            && t.direct == cidr(front[i].ip).value.direct;
          assert entries[i] == front[i];
        }
      }
    }
  }

  /** The hosts that charon's connection names stand for. */
  function HostsNamed(names: set<string>): set<string> {
    set k | k in names && "conn-" <= k :: k[|"conn-"|..]
  }

  lemma HostsNamedMeaning(names: set<string>, r: string)
    ensures r in HostsNamed(names) <==> "conn-" + r in names
  {
    if r in HostsNamed(names) {
      var k :| k in names && "conn-" <= k && k[|"conn-"|..] == r;
      assert k == "conn-" + r;
    }
    if "conn-" + r in names { assert ("conn-" + r)[|"conn-"|..] == r; }
  }

  method DiscoverHosts(names: set<string>) returns (found: Own.Hosts)
    ensures found.Keys == HostsNamed(names)
    ensures forall r :: r in found ==> found[r] == Own.Foreign("")
  {
    found := map[];
    var rest := names;
    while rest != {}
      invariant rest <= names
      invariant found.Keys == HostsNamed(names - rest)
      invariant forall r :: r in found ==> found[r] == Own.Foreign("")
    {
      var k :| k in rest;
      assert names - (rest - {k}) == (names - rest) + {k};
      rest := rest - {k};
      if "conn-" <= k { found := found[k[|"conn-"|..] := Own.Foreign("")]; }
    }
  }

  // ---------------------------------------------------------------- connections in charon

  type Conns = map<string, Own.IkeConf>

  /** charon holds the configuration behind every fingerprint of an own load. */
  ghost predicate BackedBy(hosts: Own.Hosts, conns: Conns) {
    forall h :: h in hosts && hosts[h].Encoded? ==>
      "conn-" + h in conns && conns["conn-" + h] == hosts[h].identity.connection
  }

  function ConnNames(hosts: set<string>): set<string> {
    set h | h in hosts :: "conn-" + h
  }

  /** The names removeHost unloads: only the part of a host before its first slash. */
  function UnloadNames(hosts: set<string>): set<string> {
    set h | h in hosts :: "conn-" + BeforeSlash(h)
  }

  lemma ConnNamesDiffer(a: string, b: string)
    ensures "conn-" + a == "conn-" + b <==> a == b
  {
    assert ("conn-" + a)[|"conn-"|..] == a && ("conn-" + b)[|"conn-"|..] == b;
  }

  /** A host in the cache is as it was, connection included, or it was loaded and charon holds the
      configuration behind its fingerprint. */
  predicate GrownAt(hosts: Own.Hosts, conns: Conns, hosts': Own.Hosts, conns': Conns, h: string) {
    h in hosts' ==>
      || (hosts'[h].Encoded? && "conn-" + h in conns' && conns'["conn-" + h] == hosts'[h].identity.connection)
      || (h in hosts && hosts'[h] == hosts[h] &&
          ("conn-" + h in conns ==> "conn-" + h in conns' && conns'["conn-" + h] == conns["conn-" + h]))
  }

  /** Loading only adds: hosts and connections of the given hosts; everything else stays. */
  ghost predicate Grown(hosts: Own.Hosts, conns: Conns, hosts': Own.Hosts, conns': Conns, added: set<string>) {
    && hosts.Keys <= hosts'.Keys <= hosts.Keys + added
    && conns.Keys <= conns'.Keys <= conns.Keys + ConnNames(added)
    && (forall h :: GrownAt(hosts, conns, hosts', conns', h))
  }

  /** So no connection behind a fingerprint is lost. */
  lemma GrownBacks(hosts: Own.Hosts, conns: Conns, hosts': Own.Hosts, conns': Conns, added: set<string>)
    requires Grown(hosts, conns, hosts', conns', added) && BackedBy(hosts, conns)
    ensures BackedBy(hosts', conns')
  {
    forall h | h in hosts' && hosts'[h].Encoded?
      ensures "conn-" + h in conns' && conns'["conn-" + h] == hosts'[h].identity.connection
    {
      assert GrownAt(hosts, conns, hosts', conns', h);
    }
  }

  /** How far the protocol has come, and how many connections were asked for. */
  datatype Progress = Progress(hosts: Own.Hosts, log: seq<Own.Event>, changes: nat)

  /** The log only grows; a quiet step asks charon for nothing and keeps the cache. */
  ghost predicate Advances(before: Progress, after: Progress, quiet: bool) {
    before.log <= after.log && (quiet ==> after.hosts == before.hosts && after.changes == before.changes)
  }

  lemma AdvancesTwice(first: Progress, second: Progress, third: Progress, quiet: bool)
    requires Advances(first, second, quiet) && Advances(second, third, quiet)
    ensures Advances(first, third, quiet)
  {
    LogGrows(first.log, second.log, third.log);
  }

  lemma GrownTwice(h0: Own.Hosts, c0: Conns, h1: Own.Hosts, c1: Conns, h2: Own.Hosts, c2: Conns,
                   first: set<string>, second: set<string>, all: set<string>)
    requires Grown(h0, c0, h1, c1, first) && Grown(h1, c1, h2, c2, second) && first <= all && second <= all
    ensures Grown(h0, c0, h2, c2, all)
  {
    assert ConnNames(first) <= ConnNames(all) && ConnNames(second) <= ConnNames(all);
    forall h ensures GrownAt(h0, c0, h2, c2, h) {
      assert GrownAt(h0, c0, h1, c1, h) && GrownAt(h1, c1, h2, c2, h);
    }
  }

  lemma LoadGrows(hosts: Own.Hosts, conns: Conns, remote: string, identity: Own.Identity)
    ensures Grown(hosts, conns, hosts[remote := Own.Encoded(identity)], conns["conn-" + remote := identity.connection],
      {remote})
  {
    var hosts', conns' := hosts[remote := Own.Encoded(identity)], conns["conn-" + remote := identity.connection];
    forall h ensures GrownAt(hosts, conns, hosts', conns', h) { ConnNamesDiffer(h, remote); }
  }

  /** A kept host's connection is unloaded with the dropped ones exactly when it is the part before
      the slash of a dropped host. */
  lemma UnloadedWith(h: string, dropped: set<string>)
    ensures "conn-" + h in UnloadNames(dropped) <==> exists k :: k in dropped && BeforeSlash(k) == h
  {
    forall k | k in dropped ensures "conn-" + BeforeSlash(k) == "conn-" + h <==> BeforeSlash(k) == h {
      ConnNamesDiffer(BeforeSlash(k), h);
    }
  }

  /** Dropping a host with a slash unloads the connection of the host before the slash. */
  lemma SlashedHostUnloadsAnother(h: string, suffix: string)
    requires '/' !in h
    ensures "conn-" + h in UnloadNames({h + "/" + suffix})
  {
    BeforeSlashOfSuffixed(h, suffix);
    UnloadedWith(h, {h + "/" + suffix});
  }

  lemma UnloadStep(conns: Conns, all: set<string>, left: set<string>, k: string)
    requires k in left && left <= all
    ensures conns - UnloadNames(all - left) - {"conn-" + BeforeSlash(k)} == conns - UnloadNames(all - (left - {k}))
  {
    assert all - (left - {k}) == (all - left) + {k};
  }

  lemma BackedAfterUnload(hosts: Own.Hosts, conns: Conns, hosts': Own.Hosts, dropped: set<string>)
    requires BackedBy(hosts, conns) && hosts'.Keys == hosts.Keys - dropped
      && forall h :: h in hosts' ==> hosts'[h] == hosts[h]
    requires forall k :: k in dropped ==> '/' !in k
    ensures BackedBy(hosts', conns - UnloadNames(dropped))
  {
    forall h | h in hosts' ensures "conn-" + h !in UnloadNames(dropped) {
      UnloadedWith(h, dropped);
    }
  }

  /** From the state in which `hosts` and `conns` are the cache and the connections before a pass to
      the one after its loads and unloads: charon holds what it held and the kept hosts' connections,
      without those unloaded. */
  lemma ConnectionsLeft(hosts: Own.Hosts, conns: Conns, hosts': Own.Hosts, conns': Conns, kept: set<string>)
    requires Grown(hosts, conns, hosts', conns', kept) && BackedBy(hosts, conns)
    requires forall h :: h in kept ==> h in hosts' && hosts'[h].Encoded?
    ensures hosts'.Keys - kept == hosts.Keys - kept
    ensures conns'.Keys == conns.Keys + ConnNames(kept)
    ensures forall h :: h in kept ==> "conn-" + h in conns' && conns'["conn-" + h] == hosts'[h].identity.connection
  {
    GrownBacks(hosts, conns, hosts', conns', kept);
    forall h | h in kept ensures "conn-" + h in conns' && conns'["conn-" + h] == hosts'[h].identity.connection {
      assert hosts'[h].Encoded?;
    }
  }

  // ---------------------------------------------------------------- what a pass terminates

  /** Between two logs at most one stale-local pass terminated SAs, and it is on record with its
      listing and with exactly the ids it killed. */
  ghost predicate OnRecord(log: seq<Own.Event>, sas: seq<IkeSa>, log': seq<Own.Event>, sas': seq<IkeSa>) {
    && log <= log'
    && (sas' == sas || exists k :: |log| <= k < |log'| && ReapedAt(log', k, sas, sas'))
  }

  ghost predicate ReapedAt(log: seq<Own.Event>, k: nat, sas: seq<IkeSa>, sas': seq<IkeSa>) {
    k < |log| && log[k].Reaped? && log[k].listing == sas && sas' == Survivors(sas, log[k].killed)
  }

  lemma LogGrows(first: seq<Own.Event>, second: seq<Own.Event>, third: seq<Own.Event>)
    requires first <= second <= third
    ensures first <= third
  {
  }

  /** Steps before and after that terminate nothing leave the record as it is. */
  lemma RecordStays(log0: seq<Own.Event>, log1: seq<Own.Event>, sas: seq<IkeSa>,
                    log2: seq<Own.Event>, sas': seq<IkeSa>, log3: seq<Own.Event>)
    requires log0 <= log1 && OnRecord(log1, sas, log2, sas') && log2 <= log3
    ensures OnRecord(log0, sas, log3, sas')
  {
    LogGrows(log0, log1, log2);
    LogGrows(log0, log2, log3);
    if k :| |log1| <= k < |log2| && ReapedAt(log2, k, sas, sas') {
      assert log3[k] == log2[k] && ReapedAt(log3, k, sas, sas');
    }
  }

  ghost predicate ListedAlone(listing: seq<IkeSa>, sa: IkeSa, m: nat) {
    m < |listing| && listing[m] == sa && forall x: nat :: x < |listing| && listing[x].uniqueId == sa.uniqueId ==> x == m
  }

  /** The SA, listed alone under its id, was proven to be a leftover of a former address when the
      pass at step k killed it. */
  ghost predicate ProvenLeftover(isIp: string -> bool, log: seq<Own.Event>, k: nat, sa: IkeSa) {
    && k < |log| && log[k].Reaped? && sa.uniqueId in log[k].killed
    && (exists m: nat :: ListedAlone(log[k].listing, sa, m))
    && sa.remoteHost in log[k].expected && sa.name == "conn-" + sa.remoteHost
    && sa.localHost != log[k].current && (forall c :: c in sa.children ==> Own.ChildOf(sa.remoteHost, c))
    && (sa.state == "CONNECTING" || sa.state == "ESTABLISHED" || sa.state == "REKEYING")
    && exists i: nat, j: nat, identity ::
         && Own.ProvenFormerAddress(isIp, log[..k], i, j, sa.remoteHost, sa.localHost, identity)
         && (sa.localId == identity || (sa.state == "CONNECTING" && sa.localId == ""))
  }

  /** Every SA lost on record of a legal run was such a leftover. */
  lemma LostIsProven(isIp: string -> bool, log: seq<Own.Event>, sas: seq<IkeSa>, log': seq<Own.Event>, sas': seq<IkeSa>,
                     sa: IkeSa)
    returns (k: nat)
    requires Own.LegalRun(isIp, log') && OnRecord(log, sas, log', sas') && sa in sas && sa !in sas'
    ensures |log| <= k && ProvenLeftover(isIp, log', k, sa)
  {
    k :| |log| <= k < |log'| && ReapedAt(log', k, sas, sas');
    var m := Own.TerminationsAreProven(isIp, log', k, sa.uniqueId);
    var x :| 0 <= x < |sas| && sas[x] == sa;
    assert x == m && ListedAlone(sas, sa, m);
    forall c | c in sa.children ensures Own.ChildOf(sa.remoteHost, c) { Own.OwnedNameMeans(sa.remoteHost, c); }
  }

  class IpsecOverlay {
    const parse: AddressParser
    const cidr: CidrParser
    const isIp: string -> bool
    const useHostTunnelSource: bool
    const blacklist: seq<string>
    const charon: Charon<Own.IkeConf>
    const kernel: Kernel

    var templates: Own.Templates
    var psk: string
    var keys: map<string, string>
    /** The addresses whose key was loaded or found loaded. */
    ghost var keyed: set<string>
    var hosts: Own.Hosts
    var staleLocal: Own.Authority
    var hostAttempt: set<string>
    var initiating: set<string>
    ghost var log: seq<Own.Event>

    constructor (parse: AddressParser, cidr: CidrParser, hostTunnel: bool, blacklist: seq<string>,
                 charon: Charon<Own.IkeConf>, kernel: Kernel, templates: Own.Templates, psk: string)
      ensures Valid() && Backed() && KeysValid()
      ensures hosts == map[] && staleLocal == map[] && initiating == {} && log == []
      ensures this.charon == charon && this.kernel == kernel && useHostTunnelSource == hostTunnel
    {
      this.parse, this.cidr, this.isIp, this.useHostTunnelSource := parse, cidr, s => parse(s).Some?, hostTunnel;
      this.blacklist, this.charon, this.kernel, this.templates, this.psk := blacklist, charon, kernel, templates, psk;
      keys, keyed, hosts, staleLocal, hostAttempt, initiating, log := map[], {}, map[], map[], {}, {}, [];
    }

    ghost function Protocol(): Own.State
      reads this`hosts, this`staleLocal
    {
      Own.State(hosts, staleLocal)
    }

    /** The cache and the authority are what the recorded run of protocol steps yields. */
    ghost predicate Valid()
      reads this`hosts, this`staleLocal, this`log
    {
      Own.History(isIp, useHostTunnelSource, log, Protocol())
    }

    ghost function Stage(): Progress
      reads this`hosts, this`log, charon`changes
    {
      Progress(hosts, log, charon.changes)
    }

    ghost predicate Backed()
      reads this`hosts, charon`conns
    {
      BackedBy(hosts, charon.conns)
    }

    function TunnelAddress(snap: Snapshot): string {
      if useHostTunnelSource then snap.localHost else snap.localIp
    }

    function DesiredFor(remote: string, snap: Snapshot): Own.Identity
      reads this`templates
    {
      Own.Desired(templates, blacklist, snap.localHost, TunnelAddress(snap), remote, useHostTunnelSource)
    }

    /** The host is cached as currently desired. */
    ghost predicate Caches(host: string, snap: Snapshot)
      reads this`hosts, this`templates
    {
      CachedIn(hosts, host, snap)
    }

    ghost predicate CachedIn(cached: Own.Hosts, host: string, snap: Snapshot)
      reads this`templates
    {
      host in cached && cached[host] == Own.Encoded(DesiredFor(host, snap))
    }

    /** What is desired for a remote host: a connection to it alone, from the tunnel address in
        host-tunnel mode, with one child of its name and request id 1234, and with the template's
        proposals that have no blacklisted prefix. */
    lemma DesiredMeans(remote: string, snap: Snapshot)
      ensures var d := DesiredFor(remote, snap);
        && d.templateRevision == templates.revision && d.localAgentIp == snap.localHost
        && d.localTunnelIp == (if useHostTunnelSource then snap.localHost else snap.localIp)
        && d.hostTunnelSource == useHostTunnelSource
        && d.connection.remoteAddrs == [remote]
        && d.connection.localAddrs == (if useHostTunnelSource then [snap.localHost] else templates.ike.localAddrs)
        && d.connection.children.Keys == {"child-" + remote}
        && d.connection.children["child-" + remote].reqId == "1234"
      ensures forall a :: a in DesiredFor(remote, snap).connection.proposals <==>
        a in templates.ike.proposals && forall p :: p in blacklist ==> !(p <= a)
      ensures forall a :: a in DesiredFor(remote, snap).connection.children["child-" + remote].espProposals <==>
        a in templates.child.espProposals && forall p :: p in blacklist ==> !(p <= a)
    {
      Own.AllowedElements(templates.ike.proposals, blacklist);
      Own.AllowedElements(templates.child.espProposals, blacklist);
    }

    ghost method Record(e: Own.Event)
      requires Own.History(isIp, useHostTunnelSource, log, Protocol()) && Own.LegalEvent(isIp, Protocol(), e)
      requires e.LoadTried? ==> e.identity.hostTunnelSource == useHostTunnelSource
      modifies this`log
      ensures log == old(log) + [e]
      ensures Own.History(isIp, useHostTunnelSource, log, Own.Apply(isIp, Protocol(), e))
    {
      Own.HistoryExtends(isIp, useHostTunnelSource, log, Protocol(), e);
      log := log + [e];
    }

    /** loadConns: connections found in charon are cached without ownership evidence. */
    method LoadConns() returns (ok: bool)
      requires Valid()
      modifies this`hosts, this`staleLocal, this`log
      ensures Valid()
      ensures ok ==> staleLocal == map[] && hosts.Keys == HostsNamed(charon.conns.Keys)
      ensures ok ==> forall r :: r in hosts ==> hosts[r] == Own.Foreign("")
      ensures !ok ==> Protocol() == old(Protocol())
      ensures ok || old(Backed()) ==> Backed()
    {
      var names;
      ok, names := charon.ListConns();
      if !ok { return; }
      var found := DiscoverHosts(names);
      Adopt(found);
    }

    /** Both maps start over from what was found. */
    method Adopt(found: Own.Hosts)
      requires Valid() && forall r :: r in found ==> found[r] == Own.Foreign("")
      modifies this`hosts, this`staleLocal, this`log
      ensures Valid() && hosts == found && staleLocal == map[]
    {
      Own.HistoryDiscovers(isIp, useHostTunnelSource, log, Protocol(), found);
      log := log + [Own.Discovered(found.Keys)];
      hosts, staleLocal := found, map[];
    }

    /** loadHostConnection: three attempts; only a successful load of a new configuration
        changes the cache, and only then may it queue authority over the former address. */
    method LoadHostConnection(remote: string, identity: Own.Identity) returns (ok: bool)
      requires Valid() && identity.hostTunnelSource == useHostTunnelSource
      modifies this`hosts, this`staleLocal, this`log, charon`conns, charon`changes
      ensures Valid()
      ensures Protocol() == Own.Apply(isIp, old(Protocol()), Own.LoadTried(remote, identity, ok)) && old(log) <= log
      ensures Own.Known(old(hosts), remote) == Own.Encoded(identity) ==> ok && charon.changes == old(charon.changes)
      ensures !ok ==> charon.changes == old(charon.changes) + 3
      ensures ok ==> Own.Known(hosts, remote) == Own.Encoded(identity)
      ensures charon.conns == if ok && Own.Known(old(hosts), remote) != Own.Encoded(identity)
        then old(charon.conns)["conn-" + remote := identity.connection] else old(charon.conns)
      ensures Grown(old(hosts), old(charon.conns), hosts, charon.conns, {remote})
    {
      if Own.Known(hosts, remote) == Own.Encoded(identity) { return true; }
      ok := false;
      for attempt := 0 to 3
        invariant Valid() && Protocol() == old(Protocol()) && log == old(log)
        invariant !ok && charon.conns == old(charon.conns) && charon.changes == old(charon.changes) + attempt
      {
        ok := charon.LoadConn("conn-" + remote, identity.connection);
        if ok { break; }
      }
      if !ok { return; }
      LoadGrows(hosts, old(charon.conns), remote, identity);
      Record(Own.LoadTried(remote, identity, true));
      staleLocal := Own.Queue(isIp, staleLocal, remote, Own.Known(hosts, remote), identity);
      hosts := hosts[remote := Own.Encoded(identity)];
    }

    /** A key not loaded yet reads as "". */
    function KeyOfOwner(owner: string): string
      reads this`keys
    {
      if owner in keys then keys[owner] else ""
    }

    /** An address whose key was loaded has the current key recorded for its part before the slash. */
    ghost predicate KeyOk(address: string)
      reads this`keyed, this`keys, this`psk
    {
      address in keyed ==> KeyOfOwner(BeforeSlash(address)) == psk
    }

    ghost predicate KeysValid()
      reads this`keyed, this`keys, this`psk
    {
      forall a :: KeyOk(a)
    }

    ghost predicate PeerKeys(snap: Snapshot, n: nat, loaded: set<string>)
      requires n <= |snap.entries|
    {
      forall i :: 0 <= i < n && snap.entries[i].peer ==> snap.entries[i].ip in loaded
    }

    lemma PeerKeysStep(snap: Snapshot, i: nat, before: set<string>, after: set<string>)
      requires i < |snap.entries| && PeerKeys(snap, i, before) && before <= after
      requires snap.entries[i].peer ==> snap.entries[i].ip in after
      ensures PeerKeys(snap, i + 1, after)
    {
    }

    /** The key is loaded for all peers at once, for every remote host and for every peer entry. */
    ghost predicate KeysLoaded(snap: Snapshot)
      reads this`keyed
    {
      "" in keyed && RemoteHosts(snap.entries, snap.localHost) <= keyed && PeerKeys(snap, |snap.entries|, keyed)
    }

    method LoadSharedKey(address: string) returns (ok: bool)
      requires KeysValid()
      modifies this`keys, this`keyed
      ensures KeysValid() && keyed == if ok then old(keyed) + {address} else old(keyed)
      ensures ok ==> KeyOfOwner(BeforeSlash(address)) == psk
      ensures keys == old(keys) || keys == old(keys)[BeforeSlash(address) := psk]
    {
      var owner := BeforeSlash(address);
      if KeyOfOwner(owner) == psk {
        KeepKeys(address, keys);
        keyed := keyed + {address};
        return true;
      }
      ok := *;
      if ok {
        KeepKeys(address, keys[owner := psk]);
        keys, keyed := keys[owner := psk], keyed + {address};
      }
    }

    /** Recording the current key, or finding it recorded, keeps the others. */
    lemma KeepKeys(address: string, keys': map<string, string>)
      requires KeysValid()
      requires keys' == keys[BeforeSlash(address) := psk] || (keys' == keys && KeyOfOwner(BeforeSlash(address)) == psk)
      ensures forall a :: a in keyed + {address} ==>
        (if BeforeSlash(a) in keys' then keys'[BeforeSlash(a)] else "") == psk
    {
      forall a | a in keyed + {address}
        ensures (if BeforeSlash(a) in keys' then keys'[BeforeSlash(a)] else "") == psk
      {
        assert KeyOk(a);
      }
    }

    /** A peer's own key, besides its host's. */
    method LoadPeerKey(entry: Entry) returns (ok: bool)
      requires KeysValid()
      modifies this`keys, this`keyed
      ensures KeysValid() && old(keyed) <= keyed && (ok && entry.peer ==> entry.ip in keyed)
      ensures ok && entry.peer ==> KeyOfOwner(BeforeSlash(entry.ip)) == psk
      ensures keys == old(keys) || keys == old(keys)[BeforeSlash(entry.ip) := psk]
    {
      ok := true;
      if entry.peer { ok := LoadSharedKey(entry.ip); }
    }

    /** addHost: the key, then the connection. */
    method AddHost(remote: string, snap: Snapshot) returns (ok: bool)
      requires Valid() && KeysValid()
      modifies this`keys, this`keyed, this`hostAttempt, this`hosts, this`staleLocal, this`log
      modifies charon`conns, charon`changes
      ensures Valid()
      ensures hostAttempt == old(hostAttempt) || hostAttempt == old(hostAttempt) + {remote}
      ensures ok ==> remote in hostAttempt && Caches(remote, snap)
      ensures Grown(old(hosts), old(charon.conns), hosts, charon.conns, {remote})
      ensures forall r :: r in old(hosts) && r != remote ==> hosts[r] == old(hosts)[r]
      ensures forall h :: h != remote && old(Caches(h, snap)) ==> Caches(h, snap)
      ensures Advances(old(Stage()), Stage(), old(Caches(remote, snap)))
      ensures KeysValid() && old(keyed) <= keyed && (ok ==> remote in keyed)
    {
      ok := LoadSharedKey(remote);
      if ok { ok := AddHostConnection(remote, snap); }
    }

    /** addHostConnection: the host counts as attempted whether or not its connection loads. */
    method AddHostConnection(remote: string, snap: Snapshot) returns (ok: bool)
      requires Valid()
      modifies this`hostAttempt, this`hosts, this`staleLocal, this`log, charon`conns, charon`changes
      ensures Valid() && hostAttempt == old(hostAttempt) + {remote}
      ensures ok ==> Caches(remote, snap)
      ensures Grown(old(hosts), old(charon.conns), hosts, charon.conns, {remote})
      ensures forall r :: r in old(hosts) && r != remote ==> hosts[r] == old(hosts)[r]
      ensures forall h :: h != remote && old(Caches(h, snap)) ==> Caches(h, snap)
      ensures Advances(old(Stage()), Stage(), old(Caches(remote, snap)))
    {
      hostAttempt := hostAttempt + {remote};
      var identity := Own.HostConnectionConfig(templates, blacklist, snap.localHost, TunnelAddress(snap), remote,
        useHostTunnelSource);
      ok := LoadHostConnection(remote, identity);
    }

    /** reapStaleLocalSAs: terminates exactly selected ids and consumes authority only after
        every one of them is gone. */
    method ReapStaleLocalSas(current: string, expected: set<string>) returns (ok: bool, ghost killed: set<string>)
      requires Valid()
      modifies this`staleLocal, this`log, charon`sas
      ensures Valid()
      ensures charon.sas == Survivors(old(charon.sas), killed)
      ensures forall id :: id in killed ==> Own.StaleId(isIp, old(charon.sas), current, expected, old(staleLocal), id)
      ensures ok ==> staleLocal == old(staleLocal) - expected
      ensures ok && old(staleLocal) != map[] ==>
        forall id :: Own.StaleId(isIp, old(charon.sas), current, expected, old(staleLocal), id) ==> id in killed
      ensures !ok ==> staleLocal == old(staleLocal)
      ensures killed != {} || (ok && old(staleLocal) != map[]) ==>
        log == old(log) + [Own.Reaped(current, expected, old(charon.sas), killed, ok)]
      ensures log == old(log) || log == old(log) + [Own.Reaped(current, expected, old(charon.sas), killed, ok)]
    {
      killed := {};
      SurvivorsOfNone(charon.sas);
      if staleLocal == map[] { return true, {}; }
      var listing;
      ok, listing := charon.ListSas();
      if !ok { return; }
      var ids := Own.StaleLocalIkeIds(isIp, listing, current, expected, staleLocal);
      ok, killed := TerminateAll(charon, ids);
      Record(Own.Reaped(current, expected, listing, killed, ok));
      if ok { ConsumeAuthority(expected); }
    }

    method ConsumeAuthority(expected: set<string>)
      modifies this`staleLocal
      ensures staleLocal == old(staleLocal) - expected
    {
      var rest := staleLocal.Keys;
      while rest != {}
        invariant rest <= old(staleLocal).Keys
        invariant staleLocal == old(staleLocal) - ((expected * old(staleLocal).Keys) - rest)
      {
        var host :| host in rest;
        rest := rest - {host};
        if host in expected { staleLocal := staleLocal - {host}; }
      }
    }

    /** removeHosts: unloads what was not attempted, going on after failures. */
    method RemoveHosts() returns (ok: bool)
      requires Valid()
      modifies this`hosts, this`staleLocal, this`log, charon`conns, charon`changes
      ensures Valid()
      ensures ok ==> hosts.Keys <= hostAttempt
      ensures forall r :: r in old(hosts) && r in hostAttempt ==> r in hosts
      ensures forall r :: r in hosts ==> r in old(hosts) && hosts[r] == old(hosts)[r]
      ensures staleLocal.Keys <= old(staleLocal).Keys
      ensures charon.conns == old(charon.conns) - UnloadNames(old(hosts).Keys - hosts.Keys)
      ensures old(log) <= log
      ensures old(hosts).Keys <= hostAttempt ==> charon.changes == old(charon.changes)
    {
      ok := true;
      var rest := hosts.Keys;
      while rest != {}
        invariant Valid()
        invariant rest <= hosts.Keys
        invariant ok ==> forall r :: r in hosts && r !in rest ==> r in hostAttempt
        invariant forall r :: r in old(hosts) && r in hostAttempt ==> r in hosts
        invariant forall r :: r in hosts ==> r in old(hosts) && hosts[r] == old(hosts)[r]
        invariant staleLocal.Keys <= old(staleLocal).Keys
        invariant charon.conns == old(charon.conns) - UnloadNames(old(hosts).Keys - hosts.Keys)
        invariant old(log) <= log
        invariant old(hosts).Keys <= hostAttempt ==> charon.changes == old(charon.changes)
        decreases rest
      {
        var k :| k in rest;
        rest := rest - {k};
        if k in hostAttempt { continue; }
        UnloadStep(old(charon.conns), old(hosts).Keys, hosts.Keys, k);
        ghost var before := hosts.Keys;
        var unloaded := RemoveHost(k);
        assert hosts.Keys == if unloaded then before - {k} else before;
        if !unloaded { ok := false; }
      }
    }

    /** A host is forgotten with its authority when its connection was unloaded. */
    method RemoveHost(k: string) returns (ok: bool)
      requires Valid()
      modifies this`hosts, this`staleLocal, this`log, charon`conns, charon`changes
      ensures Valid()
      ensures hosts == if ok then old(hosts) - {k} else old(hosts)
      ensures staleLocal == if ok then old(staleLocal) - {k} else old(staleLocal)
      ensures charon.conns == if ok then old(charon.conns) - {"conn-" + BeforeSlash(k)} else old(charon.conns)
      ensures old(log) <= log
    {
      ok := charon.UnloadConn("conn-" + BeforeSlash(k));
      if ok {
        Record(Own.Unloaded(k));
        hosts, staleLocal := hosts - {k}, staleLocal - {k};
      }
    }

    /** scheduleInitiatesLocked: marks the hosts not in progress and hands them to one worker. */
    method ScheduleInitiates(requested: set<string>) returns (targets: seq<string>)
      modifies this`initiating
      ensures Initiation.TargetsOf(old(initiating), requested, targets)
      ensures initiating == old(initiating) + (set h | h in targets)
    {
      var picked: seq<string> := [];
      var rest := requested;
      while rest != {}
        invariant rest <= requested
        invariant forall h :: h in picked <==> h in requested - rest && h != "" && h !in old(initiating)
        invariant forall i, j :: 0 <= i < j < |picked| ==> picked[i] != picked[j]
        invariant initiating == old(initiating) + (set h | h in picked)
      {
        var host :| host in rest;
        rest := rest - {host};
        if host == "" || host in initiating { continue; }
        initiating := initiating + {host};
        picked := picked + [host];
      }
      targets := Sort(picked, s => s);
      SortStrict(picked, s => s);
      assert (set h | h in targets) == set h | h in picked;
    }

    /** The parsers are lawful and the remote entries' overlay addresses are pairwise different. */
    ghost predicate DistinctAddresses(snap: Snapshot) {
      LawfulParsers() && DistinctOverlayIps(cidr, snap.entries, snap.localHost)
    }

    ghost predicate LawfulParsers() {
      Canonicalizing(parse) && DashlessCidrs(cidr)
    }

    ghost function TargetsFor(snap: Snapshot, n: nat): seq<Target>
      requires n <= |snap.entries|
    {
      Targets(parse, cidr, snap.entries[..n], snap.localHost, TunnelAddress(snap))
    }

    /** The connections of these hosts are cached as currently desired. */
    ghost predicate Ready(snap: Snapshot, expected: set<string>)
      reads this`hosts, this`templates, this`hostAttempt
    {
      expected <= hostAttempt
        && forall h :: h in expected ==> Caches(h, snap)
    }

    /** The addresses of the first n remote entries parse. */
    ghost predicate AllParse(snap: Snapshot, n: nat)
      requires n <= |snap.entries|
    {
      forall i :: 0 <= i < n ==> ParsesAt(snap, i)
    }

    ghost predicate ParsesAt(snap: Snapshot, i: nat)
      requires i < |snap.entries|
    {
      snap.entries[i].hostIp == snap.localHost || cidr(snap.entries[i].ip).Some?
    }

    function RemoteHost(snap: Snapshot, entry: Entry): set<string> {
      if entry.hostIp == snap.localHost then {} else {entry.hostIp}
    }

    /** The entry loop's work on one entry's key and host. */
    method PrepareHost(snap: Snapshot, entry: Entry, expected: set<string>) returns (ok: bool, expected': set<string>)
      requires Valid() && Ready(snap, expected) && KeysValid() && expected <= keyed
      modifies this`keys, this`keyed, this`hostAttempt, this`hosts, this`staleLocal, this`log
      modifies charon`conns, charon`changes
      ensures Valid() && Ready(snap, expected')
      ensures KeysValid() && old(keyed) <= keyed && expected' <= keyed && (ok && entry.peer ==> entry.ip in keyed)
      ensures Grown(old(hosts), old(charon.conns), hosts, charon.conns, RemoteHost(snap, entry))
      ensures expected <= expected'
      ensures hostAttempt <= old(hostAttempt) + RemoteHost(snap, entry)
      ensures ok ==> expected' == expected + RemoteHost(snap, entry)
      ensures Advances(old(Stage()), Stage(), entry.hostIp == snap.localHost || old(Caches(entry.hostIp, snap)))
    {
      ok := LoadPeerKey(entry);
      expected' := expected;
      assert Stage() == old(Stage()) && Ready(snap, expected);
      assert old(Caches(entry.hostIp, snap)) ==> Caches(entry.hostIp, snap);
      if entry.hostIp == snap.localHost || entry.hostIp in expected { return; }
      var added := AddHost(entry.hostIp, snap);
      if added { expected' := expected + {entry.hostIp}; } else { ok := false; }
    }

    /** The entry loop's work on one entry's policies. */
    method PrepareRules(key: KeyOf, snap: Snapshot, i: nat, ghost installed: Keyed, existing: Keyed, toAdd: Keyed)
      returns (ok: bool, existing': Keyed, toAdd': Keyed)
      requires Lawful(key) && i < |snap.entries|
      requires Placed(key, snap, i, installed, existing, toAdd)
      ensures Placed(key, snap, i + 1, installed, existing', toAdd')
      ensures ok <==> ParsesAt(snap, i)
    {
      ok, existing', toAdd' := true, existing, toAdd;
      var entry := snap.entries[i];
      assert snap.entries[..i + 1][..i] == snap.entries[..i];
      if entry.hostIp == snap.localHost { return; }
      var parsed := cidr(entry.ip);
      if parsed.None? { return false, existing, toAdd; }
      var t := Target(IpText(parse, TunnelAddress(snap)), IpText(parse, entry.hostIp), parsed.value.net,
        parsed.value.direct);
      assert TargetsFor(snap, i + 1) == TargetsFor(snap, i) + [t];
      existing', toAdd' := AddRules(key, TargetsFor(snap, i), installed, t, existing, toAdd);
    }

    /** What the entry loop hands to the rest of configure. */
    ghost predicate Prepared(key: KeyOf, snap: Snapshot, n: nat, installed: Keyed, existing: Keyed, toAdd: Keyed,
                             expected: set<string>)
      requires n <= |snap.entries|
      reads this, kernel
    {
      && Indexes(key, installed, kernel.spd) && Placed(key, snap, n, installed, existing, toAdd)
      && expected == RemoteHosts(snap.entries[..n], snap.localHost) == hostAttempt && Ready(snap, expected)
    }

    /** The part of configure up to the end of the entry loop. It only loads: whatever fails in
        it, no policy changes, no SA is terminated and no connection is unloaded. */
    method Prepare(key: KeyOf, snap: Snapshot, reloaded: Option<Own.Templates>, ghost quiet: bool)
      returns (ok: bool, existing: Keyed, toAdd: Keyed, expected: set<string>, ghost installed: Keyed)
      requires Valid() && Lawful(key) && WellKeyed(kernel.spd) && KeysValid()
      requires quiet ==> reloaded.None? || (reloaded.value == templates && CachesAll(snap))
      modifies this, charon`conns, charon`changes
      ensures Valid()
      ensures initiating == old(initiating) && psk == old(psk) && KeysValid()
      ensures Advances(old(Stage()), Stage(), quiet)
      ensures !ok ==> Passed(snap, old(Stage()), old(charon.conns), charon.sas, false)
      ensures !ok ==> PoliciesAre(snap, kernel.spd, false)
      ensures templates == if reloaded.Some? then reloaded.value else old(templates)
      ensures Grown(old(hosts), old(charon.conns), hosts, charon.conns, RemoteHosts(snap.entries, snap.localHost))
      ensures ok ==> reloaded.Some? && ReadyFor(snap)
      ensures ok ==> Prepared(key, snap, |snap.entries|, installed, existing, toAdd, expected)
    {
      existing, toAdd, expected, installed := map[], map[], {}, map[];
      ok := reloaded.Some?;
      if ok {
        templates := reloaded.value;
        ok, existing, toAdd, expected, installed := PrepareWith(key, snap);
      }
      if !ok { FailedEarly(snap, old(Stage()), old(charon.conns), charon.sas, kernel.spd, quiet); }
    }

    /** With the templates reloaded: the installed policies, the common key, the entries. */
    method PrepareWith(key: KeyOf, snap: Snapshot)
      returns (ok: bool, existing: Keyed, toAdd: Keyed, expected: set<string>, ghost installed: Keyed)
      requires Valid() && Lawful(key) && WellKeyed(kernel.spd) && KeysValid()
      modifies this`keys, this`keyed, this`hostAttempt, this`hosts, this`staleLocal, this`log
      modifies charon`conns, charon`changes
      ensures Valid()
      ensures Grown(old(hosts), old(charon.conns), hosts, charon.conns, RemoteHosts(snap.entries, snap.localHost))
      ensures Advances(old(Stage()), Stage(), old(CachesAll(snap)))
      ensures KeysValid() && (ok ==> ReadyFor(snap))
      ensures ok ==> Prepared(key, snap, |snap.entries|, installed, existing, toAdd, expected)
    {
      var listed, keyOk, rules := StartPass(key);
      installed := rules;
      assert Stage() == old(Stage()) && (old(CachesAll(snap)) ==> CachesAll(snap));
      ok, existing, toAdd, expected := PrepareEntries(key, snap, rules);
      assert snap.entries[..|snap.entries|] == snap.entries;
      ok := listed && keyOk && ok;
      if ok { ReadyNow(snap, expected); }
    }

    lemma ReadyNow(snap: Snapshot, expected: set<string>)
      requires AllParse(snap, |snap.entries|) && PeerKeys(snap, |snap.entries|, keyed) && "" in keyed
      requires Ready(snap, expected) && expected == RemoteHosts(snap.entries, snap.localHost) && expected <= keyed
      ensures ReadyFor(snap)
    {
    }

    /** The installed policies and the key for all peers. */
    method StartPass(key: KeyOf) returns (listed: bool, keyOk: bool, rules: Keyed)
      requires Lawful(key) && WellKeyed(kernel.spd) && KeysValid()
      modifies this`keys, this`keyed, this`hostAttempt
      ensures KeysValid() && hostAttempt == {} && (keyOk ==> "" in keyed)
      ensures listed ==> Indexes(key, rules, kernel.spd)
    {
      hostAttempt := {};
      listed, rules := GetRules(key, kernel);
      keyOk := LoadSharedKey("");
    }

    /** The leftover and to-add policies after the first n entries. */
    ghost predicate Placed(key: KeyOf, snap: Snapshot, n: nat, installed: Keyed, existing: Keyed, toAdd: Keyed)
      requires n <= |snap.entries|
    {
      && existing == installed - AllKeys(key, TargetsFor(snap, n))
      && Additions(key, TargetsFor(snap, n), installed, toAdd)
    }

    /** The entry loop. It goes on after a failure. */
    method PrepareEntries(key: KeyOf, snap: Snapshot, installed: Keyed)
      returns (ok: bool, existing: Keyed, toAdd: Keyed, expected: set<string>)
      requires Valid() && Lawful(key) && hostAttempt == {} && KeysValid()
      modifies this`keys, this`keyed, this`hostAttempt, this`hosts, this`staleLocal, this`log
      modifies charon`conns, charon`changes
      ensures Valid() && Ready(snap, expected) && Placed(key, snap, |snap.entries|, installed, existing, toAdd)
      ensures Grown(old(hosts), old(charon.conns), hosts, charon.conns, RemoteHosts(snap.entries, snap.localHost))
      ensures ok ==> expected == RemoteHosts(snap.entries[..|snap.entries|], snap.localHost) == hostAttempt
      ensures ok ==> AllParse(snap, |snap.entries|)
      ensures Advances(old(Stage()), Stage(), old(CachesAll(snap)))
      ensures KeysValid() && old(keyed) + expected <= keyed && (ok ==> PeerKeys(snap, |snap.entries|, keyed))
    {
      assert installed == installed - {};
      ghost var quiet := CachesAll(snap);
      LoadingStarts(snap, Stage(), charon.conns, quiet);
      ok, existing, toAdd, expected := LoadEntries(key, snap, installed, Stage(), charon.conns, quiet);
      assert snap.entries[..|snap.entries|] == snap.entries;
    }

    /** The loop itself, from the stage and connections it begins with. */
    method LoadEntries(key: KeyOf, snap: Snapshot, installed: Keyed, ghost first: Progress, ghost conns: Conns,
                       ghost quiet: bool)
      returns (ok: bool, existing: Keyed, toAdd: Keyed, expected: set<string>)
      requires Valid() && Lawful(key) && hostAttempt == {} && Placed(key, snap, 0, installed, installed, map[])
      requires Loading(snap, 0, {}, {}, true, first, conns, Stage(), charon.conns, quiet)
      requires KeysValid() && (quiet ==> CachesIn(first.hosts, snap))
      modifies this`keys, this`keyed, this`hostAttempt, this`hosts, this`staleLocal, this`log
      modifies charon`conns, charon`changes
      ensures Valid() && Ready(snap, expected) && Placed(key, snap, |snap.entries|, installed, existing, toAdd)
      ensures Loading(snap, |snap.entries|, expected, hostAttempt, ok, first, conns, Stage(), charon.conns, quiet)
      ensures KeysValid() && old(keyed) + expected <= keyed && (ok ==> PeerKeys(snap, |snap.entries|, keyed))
    {
      ok, existing, toAdd, expected := true, installed, map[], {};
      for i := 0 to |snap.entries|
        invariant Valid() && Ready(snap, expected) && Placed(key, snap, i, installed, existing, toAdd)
        invariant Loading(snap, i, expected, hostAttempt, ok, first, conns, Stage(), charon.conns, quiet)
        invariant quiet ==> CachesIn(first.hosts, snap)
        invariant KeysValid() && old(keyed) + expected <= keyed && (ok ==> PeerKeys(snap, i, keyed))
      {
        var entryOk;
        ghost var stage, conns', attempted, before, loaded := Stage(), charon.conns, hostAttempt, expected, keyed;
        entryOk, existing, toAdd, expected := PrepareEntry(key, snap, i, installed, existing, toAdd, expected);
        if quiet { QuietHost(snap, i, first.hosts, stage.hosts); }
        LoadingStep(snap, i, before, attempted, ok, first, conns, stage, conns', expected, hostAttempt, entryOk,
          Stage(), charon.conns, quiet);
        ok := ok && entryOk;
        if ok { PeerKeysStep(snap, i, loaded, keyed); }
      }
    }

    lemma QuietHost(snap: Snapshot, i: nat, cached: Own.Hosts, now: Own.Hosts)
      requires i < |snap.entries| && now == cached && CachesIn(cached, snap)
      ensures snap.entries[i].hostIp == snap.localHost || CachedIn(now, snap.entries[i].hostIp, snap)
    {
    }

    lemma LoadingStarts(snap: Snapshot, first: Progress, conns: Conns, quiet: bool)
      ensures Loading(snap, 0, {}, {}, true, first, conns, first, conns, quiet)
    {
      assert RemoteHosts(snap.entries[..0], snap.localHost) == {};
    }

    /** What the entry loop did to n entries, from the stage and connections it began with. */
    ghost predicate Loading(snap: Snapshot, n: nat, expected: set<string>, attempted: set<string>, ok: bool,
                            first: Progress, conns: Conns, stage: Progress, conns': Conns, quiet: bool)
      requires n <= |snap.entries|
    {
      var remote := RemoteHosts(snap.entries[..n], snap.localHost);
      && attempted <= remote && Grown(first.hosts, conns, stage.hosts, conns', remote) && Advances(first, stage, quiet)
      && (ok ==> expected == remote && AllParse(snap, n))
    }

    lemma LoadingStep(snap: Snapshot, i: nat, expected: set<string>, attempted: set<string>, ok: bool,
                      first: Progress, conns: Conns, stage: Progress, conns': Conns,
                      expected': set<string>, attempted': set<string>, entryOk: bool,
                      stage': Progress, conns'': Conns, quiet: bool)
      requires i < |snap.entries| && Loading(snap, i, expected, attempted, ok, first, conns, stage, conns', quiet)
      requires Grown(stage.hosts, conns', stage'.hosts, conns'', RemoteHost(snap, snap.entries[i]))
      requires Advances(stage, stage', quiet) && attempted' <= attempted + RemoteHost(snap, snap.entries[i])
      requires entryOk ==> expected' == expected + RemoteHost(snap, snap.entries[i]) && ParsesAt(snap, i)
      ensures Loading(snap, i + 1, expected', attempted', ok && entryOk, first, conns, stage', conns'', quiet)
    {
      RemoteHostsStep(snap.entries, snap.localHost, i);
      GrownTwice(first.hosts, conns, stage.hosts, conns', stage'.hosts, conns'',
        RemoteHosts(snap.entries[..i], snap.localHost),
        RemoteHost(snap, snap.entries[i]), RemoteHosts(snap.entries[..i + 1], snap.localHost));
      AdvancesTwice(first, stage, stage', quiet);
    }

    /** One entry: its key and host, then its policies. */
    method PrepareEntry(key: KeyOf, snap: Snapshot, i: nat, ghost installed: Keyed, existing: Keyed, toAdd: Keyed,
                        expected: set<string>)
      returns (ok: bool, existing': Keyed, toAdd': Keyed, expected': set<string>)
      requires Valid() && Ready(snap, expected) && Lawful(key) && i < |snap.entries|
      requires Placed(key, snap, i, installed, existing, toAdd) && KeysValid() && expected <= keyed
      modifies this`keys, this`keyed, this`hostAttempt, this`hosts, this`staleLocal, this`log
      modifies charon`conns, charon`changes
      ensures Valid() && Ready(snap, expected') && Placed(key, snap, i + 1, installed, existing', toAdd')
      ensures Grown(old(hosts), old(charon.conns), hosts, charon.conns, RemoteHost(snap, snap.entries[i]))
      ensures hostAttempt <= old(hostAttempt) + RemoteHost(snap, snap.entries[i])
      ensures ok ==> expected' == expected + RemoteHost(snap, snap.entries[i]) && ParsesAt(snap, i)
      ensures Advances(old(Stage()), Stage(),
        snap.entries[i].hostIp == snap.localHost || CachedIn(old(hosts), snap.entries[i].hostIp, snap))
      ensures KeysValid() && old(keyed) + expected' <= keyed
      ensures ok && snap.entries[i].peer ==> snap.entries[i].ip in keyed
    {
      var hostOk, rulesOk;
      hostOk, expected' := PrepareHost(snap, snap.entries[i], expected);
      rulesOk, existing', toAdd' := PrepareRules(key, snap, i, installed, existing, toAdd);
      ok := hostOk && rulesOk;
    }

    /** The cached hosts are exactly the remote hosts of the entries, each as currently desired. */
    ghost predicate CachesDesired(snap: Snapshot)
      reads this`hosts, this`templates
    {
      hosts.Keys == RemoteHosts(snap.entries, snap.localHost) && forall h :: h in hosts ==> Caches(h, snap)
    }

    ghost predicate CachesAll(snap: Snapshot)
      reads this`hosts, this`templates
    {
      CachesIn(hosts, snap)
    }

    ghost predicate CachesIn(cached: Own.Hosts, snap: Snapshot)
      reads this`templates
    {
      forall i :: 0 <= i < |snap.entries| && snap.entries[i].hostIp != snap.localHost ==>
        CachedIn(cached, snap.entries[i].hostIp, snap)
    }

    lemma DesiredCachesAll(snap: Snapshot)
      requires CachesDesired(snap)
      ensures CachesAll(snap)
    {
      forall i | 0 <= i < |snap.entries| && snap.entries[i].hostIp != snap.localHost
        ensures CachedIn(hosts, snap.entries[i].hostIp, snap)
      {
        RemoteHostsMean(snap.entries, snap.localHost, snap.entries[i].hostIp);
        assert Caches(snap.entries[i].hostIp, snap);
      }
    }

    /** Nothing is left to load, unload, delete or add for the snapshot. */
    ghost predicate Settled(snap: Snapshot)
      reads this, kernel
    {
      && CachesDesired(snap) && DistinctAddresses(snap)
      && Reconciled(ToKey, TargetsFor(snap, |snap.entries|), kernel.spd)
    }

    /** The connections charon is left with when those of the hosts in `dropped` were unloaded. A
        cached host keeps its connection exactly when it is no dropped host's part before the slash. */
    ghost predicate ConnectionsAre(conns: Conns, dropped: set<string>)
      reads this, charon
    {
      && charon.conns.Keys == conns.Keys + ConnNames(hosts.Keys) - UnloadNames(dropped)
      && (forall h :: h in hosts ==>
        ("conn-" + h in charon.conns <==> forall k :: k in dropped ==> BeforeSlash(k) != h))
      && (forall h :: h in hosts && "conn-" + h in charon.conns && hosts[h].Encoded? ==>
            charon.conns["conn-" + h] == hosts[h].identity.connection)
    }

    /** What a pass leaves in the overlay and in charon, from the stage, connections and SAs it began
        with. nil means: the cache is as desired, no authority is left, no SA has a stale peer identity,
        and charon's connections are as ConnectionsAre says. Whatever fails, unless charon was killed,
        only SAs on record were terminated; and with slash-free host addresses charon still holds the
        configuration behind every fingerprint. */
    ghost predicate Passed(snap: Snapshot, first: Progress, conns: Conns, sas: seq<IkeSa>, ok: bool)
      reads this, charon
    {
      && (ok ==> CachesDesired(snap) && staleLocal == map[] && !HasStaleIdentity(snap, charon.sas))
      && (ok && BackedBy(first.hosts, conns) ==> ConnectionsAre(conns, first.hosts.Keys - hosts.Keys))
      && (Killed(ok) || OnRecord(first.log, sas, log, charon.sas))
      && (Killed(ok) || (BackedBy(first.hosts, conns) && (forall k :: k in first.hosts ==> '/' !in k) ==> Backed()))
    }

    /** Some entry's tunnel under the selector runs from src to dst. */
    ghost predicate EntryTunnel(snap: Snapshot, s: Selector, src: string, dst: string) {
      EntryTunnelFrom(snap, if useHostTunnelSource then snap.localHost else snap.localIp, s, src, dst)
    }

    ghost predicate EntryTunnelFrom(snap: Snapshot, tunnelIp: string, s: Selector, src: string, dst: string) {
      exists e :: e in snap.entries && EntryRole(parse, cidr, e, snap.localHost, tunnelIp, s, src, dst)
    }

    /** The managed policies are exactly the tunnels of the entries: out to each remote entry's address
        from this host's tunnel address to the entry's host, in and forwarded the other way. */
    ghost predicate TunnelsAre(snap: Snapshot, spd: Table) {
      && (forall s, src, dst :: EntryTunnel(snap, s, src, dst) ==> HasTunnel(spd, s, src, dst))
      && (forall s :: s in spd && !s.dir.Socket? ==> exists src, dst :: EntryTunnel(snap, s, src, dst))
    }

    /** Sockets' policies and tunnels already right stay, and all that is new is an ESP tunnel. */
    ghost predicate TunnelChanges(snap: Snapshot, spd: Table, final: Table) {
      && (forall s :: s in spd && s.dir.Socket? ==> s in final && final[s] == spd[s])
      && (forall s, src, dst :: EntryTunnel(snap, s, src, dst) && HasTunnel(spd, s, src, dst) ==>
        s in final && final[s] == spd[s])
      && NewAreTunnels(spd, final)
    }

    lemma TunnelsAreOf(snap: Snapshot, spd: Table, final: Table)
      ensures var ts := TargetsFor(snap, |snap.entries|);
        && (TunnelsOf(ts, final) <==> TunnelsAre(snap, final))
        && (TunnelsKept(ts, spd, final) && NewAreTunnels(spd, final) <==> TunnelChanges(snap, spd, final))
    {
      var ts := TargetsFor(snap, |snap.entries|);
      assert snap.entries[..|snap.entries|] == snap.entries;
      forall s, src, dst ensures Tunnel(ts, s, src, dst) <==> EntryTunnel(snap, s, src, dst) {
        TargetsHaveEntryRoles(parse, cidr, snap.entries, snap.localHost, TunnelAddress(snap), s, src, dst);
        assert EntryTunnel(snap, s, src, dst) == EntryTunnelFrom(snap, TunnelAddress(snap), s, src, dst);
      }
    }

    /** What a pass leaves in the policy table. nil means, for distinct overlay addresses, that the
        managed policies are the wanted ones and nothing already right was touched. */
    ghost predicate PoliciesAre(snap: Snapshot, spd: Table, ok: bool)
      reads kernel
    {
      && (LawfulParsers() ==> WellKeyed(kernel.spd))
      && (ok && DistinctAddresses(snap) ==>
        && Reconciled(ToKey, TargetsFor(snap, |snap.entries|), kernel.spd)
        && Undisturbed(ToKey, TargetsFor(snap, |snap.entries|), spd, kernel.spd)
        && TunnelsAre(snap, kernel.spd) && TunnelChanges(snap, spd, kernel.spd))
    }

    /** Every remote entry's address parses, the keys are loaded, and every
        remote host is attempted and cached as currently desired. */
    ghost predicate ReadyFor(snap: Snapshot)
      reads this`hosts, this`templates, this`hostAttempt, this`keyed
    {
      && AllParse(snap, |snap.entries|) && KeysLoaded(snap)
      && Ready(snap, RemoteHosts(snap.entries, snap.localHost))
    }

    /** The snapshot is settled, and the templates do not change. */
    ghost predicate NothingToDo(snap: Snapshot, reloaded: Option<Own.Templates>)
      reads this, kernel
    {
      Settled(snap) && (reloaded.None? || reloaded.value == templates)
    }

    /** configure over one snapshot. The outcome of syncing host routes, which is outside the model,
        is a parameter. `prepared` tells whether every step up to the end of the entry loop
        succeeded; if not, nothing was terminated, unloaded or changed in the policy table. A pass
        over a settled snapshot requests nothing of charon's connections and of the kernel. */
    method Configure(snap: Snapshot, reloaded: Option<Own.Templates>, routesOk: bool)
      returns (ok: bool, ghost prepared: bool)
      requires Valid() && WellKeyed(kernel.spd) && KeysValid()
      modifies this, charon, kernel
      ensures Valid() && KeysValid() && templates == if reloaded.Some? then reloaded.value else old(templates)
      ensures Passed(snap, old(Stage()), old(charon.conns), old(charon.sas), ok)
      ensures PoliciesAre(snap, old(kernel.spd), ok)
      ensures psk == old(psk) && (prepared ==> reloaded.Some? && ReadyFor(snap))
      ensures !prepared ==> !ok
      ensures initiating ==
        if ok then old(initiating) + (RemoteHosts(snap.entries, snap.localHost) - {""}) else old(initiating)
      ensures !prepared ==> kernel.spd == old(kernel.spd) && charon.sas == old(charon.sas)
      ensures !prepared ==> Grown(old(hosts), old(charon.conns), hosts, charon.conns,
        RemoteHosts(snap.entries, snap.localHost))
      ensures Advances(old(Stage()), Stage(), old(NothingToDo(snap, reloaded)))
      ensures old(NothingToDo(snap, reloaded)) ==> kernel.changes == old(kernel.changes)
    {
      ghost var quiet := NothingToDo(snap, reloaded);
      if quiet { DesiredCachesAll(snap); }
      ok, prepared := RunPass(snap, reloaded, routesOk, quiet);
    }

    /** The pass itself; a quiet one starts from a cache that is as desired. */
    method RunPass(snap: Snapshot, reloaded: Option<Own.Templates>, routesOk: bool, ghost quiet: bool)
      returns (ok: bool, ghost prepared: bool)
      requires Valid() && WellKeyed(kernel.spd) && KeysValid()
      requires quiet ==> reloaded.None? || (reloaded.value == templates && CachesAll(snap))
      requires quiet ==> hosts.Keys == RemoteHosts(snap.entries, snap.localHost)
      modifies this, charon, kernel
      ensures Valid() && KeysValid() && templates == if reloaded.Some? then reloaded.value else old(templates)
      ensures Passed(snap, old(Stage()), old(charon.conns), old(charon.sas), ok)
      ensures PoliciesAre(snap, old(kernel.spd), ok)
      ensures psk == old(psk) && (prepared ==> reloaded.Some? && ReadyFor(snap))
      ensures initiating ==
        if ok then old(initiating) + (RemoteHosts(snap.entries, snap.localHost) - {""}) else old(initiating)
      ensures !prepared ==> !ok && kernel.spd == old(kernel.spd) && charon.sas == old(charon.sas)
      ensures !prepared ==> Grown(old(hosts), old(charon.conns), hosts, charon.conns,
        RemoteHosts(snap.entries, snap.localHost))
      ensures Advances(old(Stage()), Stage(), quiet)
      ensures DistinctAddresses(snap) && Reconciled(ToKey, TargetsFor(snap, |snap.entries|), old(kernel.spd)) ==>
        kernel.changes == old(kernel.changes)
    {
      ToKeyIsLawful();
      var existing, toAdd, expected;
      ghost var installed;
      ok, existing, toAdd, expected, installed := Prepare(ToKey, snap, reloaded, quiet);
      prepared := ok;
      if ok {
        assert snap.entries[..|snap.entries|] == snap.entries;
        ok := Complete(snap, installed, existing, toAdd, expected, routesOk,
          old(Stage()), old(charon.conns), old(charon.sas), quiet);
      }
    }

    /** A pass that stopped before the policies only loaded. */
    lemma FailedEarly(snap: Snapshot, first: Progress, conns: Conns, sas: seq<IkeSa>, spd: Table, quiet: bool)
      requires Grown(first.hosts, conns, hosts, charon.conns, RemoteHosts(snap.entries, snap.localHost))
      requires Advances(first, Stage(), quiet) && charon.sas == sas && kernel.spd == spd && WellKeyed(spd)
      ensures Passed(snap, first, conns, sas, false) && PoliciesAre(snap, spd, false)
    {
      if BackedBy(first.hosts, conns) {
        GrownBacks(first.hosts, conns, hosts, charon.conns, RemoteHosts(snap.entries, snap.localHost));
      }
    }

    /** The part of configure after the entry loop, in a pass that began with the given stage. */
    method Complete(snap: Snapshot, ghost installed: Keyed, existing: Keyed, toAdd: Keyed, expected: set<string>,
                    routesOk: bool, ghost first: Progress, ghost conns: Conns, ghost sas: seq<IkeSa>, ghost quiet: bool)
      returns (ok: bool)
      requires Valid() && WellKeyed(kernel.spd) && Lawful(ToKey) && ReadyFor(snap)
      requires Prepared(ToKey, snap, |snap.entries|, installed, existing, toAdd, expected)
      requires Grown(first.hosts, conns, hosts, charon.conns, expected) && Advances(first, Stage(), quiet)
      requires charon.sas == sas && (quiet ==> first.hosts.Keys == expected)
      modifies this`hosts, this`staleLocal, this`log, this`initiating, charon, kernel
      ensures Valid() && Ready(snap, expected) && ReadyFor(snap)
      ensures Passed(snap, first, conns, sas, ok) && PoliciesAre(snap, old(kernel.spd), ok)
      ensures Advances(first, Stage(), quiet)
      ensures initiating == if ok then old(initiating) + (expected - {""}) else old(initiating)
      ensures DistinctAddresses(snap) && Reconciled(ToKey, TargetsFor(snap, |snap.entries|), old(kernel.spd)) ==>
        kernel.changes == old(kernel.changes)
    {
      assert snap.entries[..|snap.entries|] == snap.entries;
      ok := InstallPolicies(snap, installed, existing, toAdd, expected);
      ok := Conclude(snap, expected, ok && routesOk, first, conns, sas, quiet);
    }

    /** The part of configure after the policies and routes. */
    method Conclude(snap: Snapshot, expected: set<string>, proceed: bool, ghost first: Progress, ghost conns: Conns,
                    ghost sas: seq<IkeSa>, ghost quiet: bool)
      returns (ok: bool)
      requires Valid() && Ready(snap, expected) && expected == hostAttempt
      requires expected == RemoteHosts(snap.entries, snap.localHost)
      requires Grown(first.hosts, conns, hosts, charon.conns, expected) && Advances(first, Stage(), quiet)
      requires charon.sas == sas && (quiet ==> first.hosts.Keys == expected)
      modifies this`hosts, this`staleLocal, this`log, this`initiating, charon
      ensures Valid() && Ready(snap, expected)
      ensures Passed(snap, first, conns, sas, ok) && (ok ==> proceed)
      ensures Advances(first, Stage(), quiet)
      ensures initiating == if ok then old(initiating) + (expected - {""}) else old(initiating)
    {
      ghost var second, conns' := Stage(), charon.conns;
      if proceed {
        ok := Finish(snap, expected);
      } else {
        ok := false;
        assert conns' - UnloadNames(second.hosts.Keys - hosts.Keys) == conns';
      }
      PassDone(snap, first, conns, second, conns', expected, ok, quiet);
      if !Killed(ok) { RecordStays(first.log, second.log, sas, log, charon.sas, log); }
    }

    /** From the part up to the entry loop and the part after it to the whole pass. */
    lemma PassDone(snap: Snapshot, first: Progress, conns: Conns, second: Progress, conns': Conns, kept: set<string>,
                   ok: bool, quiet: bool)
      requires Grown(first.hosts, conns, second.hosts, conns', kept) && Advances(first, second, quiet)
      requires kept == RemoteHosts(snap.entries, snap.localHost) && Ready(snap, kept)
      requires quiet ==> first.hosts.Keys == kept
      requires Retired(kept, second, conns', ok) && (ok ==> hosts.Keys == kept)
      ensures ok ==> CachesDesired(snap)
      ensures ok && BackedBy(first.hosts, conns) ==> ConnectionsAre(conns, first.hosts.Keys - hosts.Keys)
      ensures Killed(ok) || (BackedBy(first.hosts, conns) && (forall k :: k in first.hosts ==> '/' !in k) ==> Backed())
      ensures Advances(first, Stage(), quiet)
    {
      LogGrows(first.log, second.log, log);
      if BackedBy(first.hosts, conns) {
        Leaves(snap, first.hosts, conns, second.hosts, conns', kept);
      }
    }

    /** charon was killed for a stale peer identity, and the pass failed. */
    ghost predicate Killed(ok: bool)
      reads charon
    {
      !ok && charon.sas == [] && charon.conns == map[]
    }

    /** Only hosts not expected are dropped, and only their connections are unloaded. */
    ghost predicate Retired(expected: set<string>, before: Progress, conns: Conns, ok: bool)
      reads this, charon
    {
      && (Killed(ok) || charon.conns == conns - UnloadNames(before.hosts.Keys - hosts.Keys))
      && expected <= hosts.Keys <= before.hosts.Keys && (forall h :: h in hosts ==> hosts[h] == before.hosts[h])
      && Advances(before, Stage(), before.hosts.Keys <= expected)
    }

    /** After a pass without an error, a second pass on the same snapshot and templates requests no
        connection to be loaded or unloaded and no policy to be deleted or added. */
    method ConfigureTwice(snap: Snapshot, reloaded: Option<Own.Templates>, routesOk: bool)
      returns (ok: bool, ghost charonChanges: int, ghost kernelChanges: int)
      requires Valid() && WellKeyed(kernel.spd) && KeysValid() && DistinctAddresses(snap)
      modifies this, charon, kernel
      ensures Valid()
      ensures ok ==> charonChanges == 0 && kernelChanges == 0
    {
      ghost var prepared;
      ok, prepared := Configure(snap, reloaded, routesOk);
      ghost var c, k := charon.changes, kernel.changes;
      if ok {
        var again;
        again, prepared := Configure(snap, reloaded, routesOk);
      }
      charonChanges, kernelChanges := charon.changes - c, kernel.changes - k;
    }

    /** Deletion before addition. */
    method InstallPolicies(snap: Snapshot, ghost installed: Keyed, existing: Keyed, toAdd: Keyed,
                           ghost expected: set<string>)
      returns (ok: bool)
      requires Lawful(ToKey) && WellKeyed(kernel.spd)
      requires Prepared(ToKey, snap, |snap.entries|, installed, existing, toAdd, expected)
      modifies kernel
      ensures PoliciesAre(snap, old(kernel.spd), ok)
      ensures DistinctAddresses(snap) && Reconciled(ToKey, TargetsFor(snap, |snap.entries|), old(kernel.spd)) ==>
        kernel.changes == old(kernel.changes)
    {
      ghost var ts := TargetsFor(snap, |snap.entries|);
      ok := Reconcile(ToKey, snap, ts, installed, existing, toAdd);
      if ok && DistinctAddresses(snap) {
        assert snap.entries[..|snap.entries|] == snap.entries;
        TargetsAreDashless(parse, cidr, snap.entries, snap.localHost, TunnelAddress(snap));
        ReconciledMeansTunnels(ts, kernel.spd);
        UndisturbedKeepsTunnels(ts, old(kernel.spd), kernel.spd);
        TunnelsAreOf(snap, old(kernel.spd), kernel.spd);
      }
    }

    /** The same for any lawful key. */
    method Reconcile(key: KeyOf, snap: Snapshot, ghost ts: seq<Target>, ghost installed: Keyed, existing: Keyed,
                     toAdd: Keyed)
      returns (ok: bool)
      requires Lawful(key) && WellKeyed(kernel.spd) && Indexes(key, installed, kernel.spd)
      requires ts == TargetsFor(snap, |snap.entries|) && Placed(key, snap, |snap.entries|, installed, existing, toAdd)
      modifies kernel
      ensures LawfulParsers() ==> WellKeyed(kernel.spd)
      ensures ok && DistinctAddresses(snap) ==> Reconciled(key, ts, kernel.spd)
      ensures ok && DistinctAddresses(snap) ==> Undisturbed(key, ts, old(kernel.spd), kernel.spd)
      ensures ok ==> NewAreTunnels(old(kernel.spd), kernel.spd)
      ensures DistinctAddresses(snap) && Reconciled(key, ts, old(kernel.spd)) ==> kernel.changes == old(kernel.changes)
    {
      ghost var spd := kernel.spd;
      assert snap.entries[..|snap.entries|] == snap.entries;
      if LawfulParsers() {
        TargetsAreDashless(parse, cidr, snap.entries, snap.localHost, TunnelAddress(snap));
        forall k | k in toAdd ensures Dashless(toAdd[k]) { WantedIsDashless(ts, toAdd[k]); }
      }
      if DistinctAddresses(snap) {
        TargetsAreDistinct(parse, cidr, snap.entries, snap.localHost, TunnelAddress(snap));
        if Reconciled(key, ts, spd) { NothingToReconcile(key, ts, spd, installed, toAdd); }
      }
      ok := DeletePolicies(kernel, existing);
      if !ok { return; }
      ok := AddPolicies(kernel, toAdd);
      if ok { AppliedAddsTunnels(key, ts, spd, installed, toAdd, kernel.spd); }
      if ok && DistinctAddresses(snap) {
        ReconciliationIsExact(key, ts, spd, installed, toAdd, kernel.spd);
        ReconciliationDisturbsNothing(key, ts, spd, installed, toAdd, kernel.spd);
      }
    }

    /** Stale-local reaping, in host-tunnel mode only: afterwards no expected host holds authority. */
    method CloseTransitions(current: string, expected: set<string>) returns (ok: bool)
      requires Valid()
      modifies this`staleLocal, this`log, charon`sas
      ensures Valid()
      ensures ok ==> staleLocal.Keys !! expected
      ensures OnRecord(old(log), old(charon.sas), log, charon.sas)
    {
      Own.HistoryFacts(isIp, useHostTunnelSource, log, Protocol());
      if !useHostTunnelSource || staleLocal == map[] { return true; }
      ghost var killed;
      ok, killed := ReapStaleLocalSas(current, expected);
      if killed == {} {
        SurvivorsOfNone(old(charon.sas));
      } else {
        assert ReapedAt(log, |old(log)|, old(charon.sas), charon.sas);
      }
    }

    /** A child of a canonical peer host is stale exactly when it is INSTALLED and the SA's identity is an
        address, neither the host's nor the overlay address of a peer on the host. */
    lemma StaleIdentityMeans(snap: Snapshot, h: string, id: string, suffix: string, sa: IkeSa, c: ChildSa)
      requires Canonicalizing(parse) && CanonicalHost(parse, h) && CanonicalHost(parse, id)
      requires sa.remoteId == id && (c.name == "child-" + h || (c.name == "child-" + h + "-" + suffix &&
        ParseUint(suffix, 0x1_0000_0000_0000_0000).Some?))
      ensures Peers.StaleIdentity(s => CleanIp(parse, s), s => ChildHostIp(parse, s), snap.localHost, snap.peers, sa, c)
        <==> c.state == "INSTALLED" && h != CleanIp(parse, snap.localHost) && id != h
             && (exists e :: e in snap.peers && CleanIp(parse, e.hostIp) == h)
             && (forall e :: e in snap.peers && CleanIp(parse, e.hostIp) == h ==> CleanIp(parse, e.ip) != id)
    {
      assert ChildHostIp(parse, c.name) == h by {
        if c.name == "child-" + h {
          assert c.name[|"child-"|..] == h;
        } else {
          assert c.name[|"child-"|..] == h + "-" + suffix;
          SuffixedHost(parse, h, suffix);
        }
      }
      CleanIpFixed(parse, id);
      Peers.StaleMeans(s => CleanIp(parse, s), s => ChildHostIp(parse, s), snap.localHost, snap.peers, h, id, sa, c);
    }

    ghost predicate HasStaleIdentity(snap: Snapshot, sas: seq<IkeSa>) {
      Peers.HasStaleIdentity(s => CleanIp(parse, s), s => ChildHostIp(parse, s), snap.localHost, snap.peers, sas)
    }

    /** The steps of configure after the policies and routes. */
    method Finish(snap: Snapshot, expected: set<string>) returns (ok: bool)
      requires Valid() && Ready(snap, expected) && expected == hostAttempt
      modifies this`hosts, this`staleLocal, this`log, this`initiating, charon
      ensures Valid() && Ready(snap, expected)
      ensures ok ==> hosts.Keys == expected && staleLocal == map[] && !HasStaleIdentity(snap, charon.sas)
      ensures Retired(expected, old(Stage()), old(charon.conns), ok)
      ensures Killed(ok) || OnRecord(old(log), old(charon.sas), log, charon.sas)
      ensures initiating == if ok then old(initiating) + (expected - {""}) else old(initiating)
    {
      ok := CloseTransitions(snap.localHost, expected);
      if !ok { return; }
      ghost var log' := log;
      ok := CheckAndRetire(snap, expected);
      LogGrows(old(log), log', log);
      if !Killed(ok) { RecordStays(old(log), old(log), old(charon.sas), log', charon.sas, log); }
    }

    /** The check for stale peer identities, then the last steps. */
    method CheckAndRetire(snap: Snapshot, expected: set<string>) returns (ok: bool)
      requires Valid() && Ready(snap, expected) && expected == hostAttempt && staleLocal.Keys !! expected
      modifies this`hosts, this`staleLocal, this`log, this`initiating, charon
      ensures Valid() && Ready(snap, expected)
      ensures ok ==> hosts.Keys == expected && staleLocal == map[] && !HasStaleIdentity(snap, charon.sas)
      ensures Retired(expected, old(Stage()), old(charon.conns), ok)
      ensures Killed(ok) || charon.sas == old(charon.sas)
      ensures initiating == if ok then old(initiating) + (expected - {""}) else old(initiating)
    {
      ok := Peers.RestartForStalePeerIdentities(s => CleanIp(parse, s), s => ChildHostIp(parse, s), snap.localHost,
        snap.peers, charon);
      if !ok { return; }
      ok := Retire(expected);
    }

    /** The last steps of configure: hosts not attempted go, and the expected ones are initiated. */
    method Retire(expected: set<string>) returns (ok: bool)
      requires Valid() && expected == hostAttempt && staleLocal.Keys !! expected
      modifies this`hosts, this`staleLocal, this`log, this`initiating, charon`conns, charon`changes
      ensures Valid()
      ensures ok ==> hosts.Keys <= expected && staleLocal == map[]
      ensures forall h :: h in old(hosts) && h in expected ==> h in hosts
      ensures forall h :: h in hosts ==> h in old(hosts) && hosts[h] == old(hosts)[h]
      ensures charon.conns == old(charon.conns) - UnloadNames(old(hosts).Keys - hosts.Keys)
      ensures old(log) <= log
      ensures initiating == if ok then old(initiating) + (expected - {""}) else old(initiating)
      ensures old(hosts).Keys <= hostAttempt ==> hosts == old(hosts) && charon.changes == old(charon.changes)
    {
      ok := RemoveHosts();
      if !ok { return; }
      NoAuthorityLeft(expected);
      var targets := ScheduleInitiates(expected);
      assert old(initiating) + (set h | h in targets) == old(initiating) + (expected - {""});
    }

    /** What a pass leaves in charon, from its loads and unloads. */
    lemma Leaves(snap: Snapshot, hosts0: Own.Hosts, conns0: Conns, hosts1: Own.Hosts, conns1: Conns, kept: set<string>)
      requires Grown(hosts0, conns0, hosts1, conns1, kept) && BackedBy(hosts0, conns0)
      requires Ready(snap, kept) && kept <= hosts.Keys <= hosts1.Keys
        && forall h :: h in hosts ==> hosts[h] == hosts1[h]
      ensures charon.conns == conns1 - UnloadNames(hosts1.Keys - hosts.Keys) && hosts.Keys == kept ==>
        ConnectionsAre(conns0, hosts0.Keys - hosts.Keys)
      ensures charon.conns == conns1 - UnloadNames(hosts1.Keys - hosts.Keys) ==>
        (forall k :: k in hosts0 ==> '/' !in k) ==> Backed()
    {
      ConnectionsLeft(hosts0, conns0, hosts1, conns1, kept);
      var dropped := hosts1.Keys - hosts.Keys;
      forall h ensures "conn-" + h in UnloadNames(dropped) <==> exists k :: k in dropped && BeforeSlash(k) == h {
        UnloadedWith(h, dropped);
      }
      assert dropped <= hosts0.Keys;
      GrownBacks(hosts0, conns0, hosts1, conns1, kept);
      if forall k :: k in hosts0 ==> '/' !in k { BackedAfterUnload(hosts1, conns1, hosts, dropped); }
      if hosts.Keys == kept { assert dropped == hosts0.Keys - hosts.Keys; }
    }

    // ---------------------------------------------------------------- the health pass

    function HealthHosts(snap: Snapshot): set<string> {
      RemoteHosts(snap.entries, snap.localHost) - {""}
    }

    method FindHealthHosts(snap: Snapshot) returns (expected: set<string>)
      ensures expected == HealthHosts(snap)
    {
      expected := {};
      for i := 0 to |snap.entries|
        invariant expected == RemoteHosts(snap.entries[..i], snap.localHost) - {""}
      {
        RemoteHostsStep(snap.entries, snap.localHost, i);
        var host := snap.entries[i].hostIp;
        if host == "" || host == snap.localHost { continue; }
        expected := expected + {host};
      }
      assert snap.entries[..|snap.entries|] == snap.entries;
    }

    /** The expected hosts without an INSTALLED child under their configured name. */
    ghost function Missing(snap: Snapshot, canon: Health.Namer, sas: seq<IkeSa>): set<string> {
      set h | h in HealthHosts(snap) && !Health.Reports(canon, sas, "child-" + h)
    }

    /** reconcileIpsecHealth. Without an error every missing host is marked for initiation; a host
        that is not missing is never newly marked, and in any case the marks are either left alone or
        the missing hosts join them. Reaping, stopped anywhere, takes no expected peer's last healthy
        SA and no unselected SA. */
    method ReconcileHealth(snap: Snapshot, canon: Health.Namer) returns (ok: bool)
      requires DistinctIds(charon.sas) && forall h :: h in HealthHosts(snap) ==> '\0' !in h
      modifies this`initiating, charon`sas
      ensures initiating == old(initiating) || initiating == old(initiating) + Missing(snap, canon, old(charon.sas))
      ensures ok ==> initiating == old(initiating) + Missing(snap, canon, old(charon.sas))
      ensures forall h :: h in HealthHosts(snap) && Health.HealthyPeer(canon, old(charon.sas), h) ==>
        Health.HealthyPeer(canon, charon.sas, h)
      ensures forall sa :: sa in charon.sas ==> sa in old(charon.sas)
      ensures forall sa :: sa in old(charon.sas) ==>
        sa in charon.sas || Health.Selected(canon, old(charon.sas), HealthHosts(snap), sa.uniqueId)
      ensures ok ==> forall sa :: sa in charon.sas ==>
        !Health.Selected(canon, old(charon.sas), HealthHosts(snap), sa.uniqueId)
    {
      var expected := FindHealthHosts(snap);
      if expected == {} {
        NothingSelected(canon, charon.sas);
        return true;
      }
      var listing;
      ok, listing := charon.ListSas();
      if !ok { return; }
      var missing := Health.MissingHosts(canon, listing, expected);
      if missing != {} {
        var targets := ScheduleInitiates(missing);
        assert (set h | h in targets) + old(initiating) == missing + old(initiating);
      }
      ok := Health.ReapDuplicateSas(canon, charon, expected);
    }

    lemma NothingSelected(canon: Health.Namer, sas: seq<IkeSa>)
      ensures forall id :: !Health.Selected(canon, sas, {}, id)
    {
      forall id ensures !Health.Selected(canon, sas, {}, id) {
        if Health.IdleSelected(canon, sas, {}, id) {
          var v, w := Health.VictimHasPartner(canon, sas, {}, id);
          assert false;
        }
      }
    }

    /** A canonical host with an INSTALLED child under its configured name, bare or suffixed, is not
        missing, so a health pass never newly marks it. */
    lemma InstalledHostIsNotMarked(snap: Snapshot, canon: Health.Namer, sas: seq<IkeSa>, h: string, sa: IkeSa,
                                   c: ChildSa)
      requires Canonicalizing(parse) && CanonicalHost(parse, h)
      requires forall name :: canon(name) == CanonicalName(parse, name)
      requires sa in sas && c in sa.children && c.state == "INSTALLED"
      requires c.name == "child-" + h || OwnedName(h, c.name) ||
               exists n: nat :: n < WORD64 && c.name == "child-" + h + "-" + Decimal(n)
      ensures h !in Missing(snap, canon, sas)
    {
      Health.InstalledHostIsNotMissing(parse, canon, sas, h, sa, c);
    }

    lemma NoAuthorityLeft(expected: set<string>)
      requires Valid() && hosts.Keys <= expected && staleLocal.Keys !! expected
      ensures staleLocal == map[]
    {
      Own.HistoryFacts(isIp, useHostTunnelSource, log, Protocol());
      assert forall h :: h in staleLocal ==> h in hosts.Keys;
    }
  }
}
