/** Health reconciliation of the IPsec overlay: which hosts lack a CHILD_SA, and which
    redundant IKE SAs may be removed without taking a peer's last working one. */
module Health {
  import opened Text
  import opened Vici
  import opened ChildNames

  /** canonicalChildName for the address parser in use. */
  type Namer = string -> string

  const QUIET_PERIOD := 120

  // ---------------------------------------------------------------- missing children

  predicate Reports(canon: Namer, sas: seq<IkeSa>, name: string) {
    exists sa, c :: sa in sas && c in sa.children && c.state == "INSTALLED" && InstalledName(canon, c.name) == name
  }

  function InstalledName(canon: Namer, name: string): string {
    var canonical := canon(name);
    if canonical == "" then name else canonical
  }

  method InstalledChildren(canon: Namer, sas: seq<IkeSa>) returns (installed: set<string>)
    ensures forall name :: name in installed <==> Reports(canon, sas, name)
  {
    installed := {};
    for i := 0 to |sas|
      invariant forall name :: name in installed <==> Reports(canon, sas[..i], name)
    {
      var children := sas[i].children;
      ghost var before := installed;
      for j := 0 to |children|
        invariant forall name :: name in installed <==>
          name in before ||
          exists k :: 0 <= k < j && children[k].state == "INSTALLED" && InstalledName(canon, children[k].name) == name
      {
        if children[j].state == "INSTALLED" {
          installed := installed + {InstalledName(canon, children[j].name)};
        }
      }
      assert sas[..i + 1] == sas[..i] + [sas[i]];
      assert forall c :: c in children <==> exists k :: 0 <= k < |children| && children[k] == c;
    }
    assert sas[..|sas|] == sas;
  }

  method MissingHosts(canon: Namer, sas: seq<IkeSa>, expected: set<string>) returns (missing: set<string>)
    ensures missing == set h | h in expected && !Reports(canon, sas, "child-" + h)
  {
    var installed := InstalledChildren(canon, sas);
    missing := {};
    var rest := expected;
    while rest != {}
      invariant rest <= expected
      invariant missing == set h | h in expected - rest && !Reports(canon, sas, "child-" + h)
    {
      var h :| h in rest;
      rest := rest - {h};
      if "child-" + h !in installed { missing := missing + {h}; }
    }
  }

  /** A canonical host with an INSTALLED child, reported under its configured name or with any
      uint64 suffix, is never scheduled as missing. */
  lemma InstalledHostIsNotMissing(parse: AddressParser, canon: Namer, sas: seq<IkeSa>, h: string, sa: IkeSa, c: ChildSa)
    requires Canonicalizing(parse) && CanonicalHost(parse, h)
      && forall name :: canon(name) == CanonicalName(parse, name)
    requires sa in sas && c in sa.children && c.state == "INSTALLED"
    requires c.name == "child-" + h || OwnedName(h, c.name) ||
             exists n: nat :: n < WORD64 && c.name == "child-" + h + "-" + Decimal(n)
    ensures Reports(canon, sas, "child-" + h)
  {
    OwnedNamesCanonicalize(parse, h);
    ReportedNamesCanonicalize(parse, h, 0);
    if n: nat :| n < WORD64 && c.name == "child-" + h + "-" + Decimal(n) {
      ReportedNamesCanonicalize(parse, h, n);
    }
    assert InstalledName(canon, c.name) == "child-" + h;
  }

  // ---------------------------------------------------------------- healthy and redundant SAs

  predicate CarriesPeer(canon: Namer, sa: IkeSa) {
    exists c :: c in sa.children && c.state == "INSTALLED" && canon(c.name) == "child-" + sa.remoteHost
  }

  /** An established SA of the peer's own connection with an installed matching child. */
  predicate HealthySa(canon: Namer, sa: IkeSa, host: string) {
    sa.remoteHost == host && sa.name == "conn-" + host && sa.state == "ESTABLISHED" && CarriesPeer(canon, sa)
  }

  predicate HealthyPeer(canon: Namer, sas: seq<IkeSa>, host: string) {
    exists sa :: sa in sas && HealthySa(canon, sa, host)
  }

  function Bytes(s: string): nat {
    var r := ParseUint(s, WORD64);
    if r.Some? then r.value else 0
  }

  predicate CountedChild(canon: Namer, sa: IkeSa, c: ChildSa) {
    c.state == "INSTALLED" && canon(c.name) == "child-" + sa.remoteHost && c.reqid == REQ_ID
  }

  /** The bytes really carried by the first n children that count. */
  function Carried(canon: Namer, sa: IkeSa, n: nat): nat
    requires n <= |sa.children|
  {
    if n == 0 then 0
    else Carried(canon, sa, n - 1) +
         (var c := sa.children[n - 1]; if CountedChild(canon, sa, c) then Bytes(c.bytesIn) + Bytes(c.bytesOut) else 0)
  }

  /** The code adds in uint64, so it sees the carried bytes modulo 2^64. */
  function Traffic(canon: Namer, sa: IkeSa): nat {
    Carried(canon, sa, |sa.children|) % WORD64
  }

  method MeasureTraffic(canon: Namer, sa: IkeSa) returns (traffic: nat, installed: bool)
    ensures traffic == Traffic(canon, sa)
    ensures installed <==> exists c :: c in sa.children && CountedChild(canon, sa, c)
  {
    traffic, installed := 0, false;
    for i := 0 to |sa.children|
      invariant traffic == Carried(canon, sa, i) % WORD64
      invariant installed <==> exists k :: 0 <= k < i && CountedChild(canon, sa, sa.children[k])
    {
      var c := sa.children[i];
      if CountedChild(canon, sa, c) {
        installed := true;
        AddWraps(Carried(canon, sa, i), Bytes(c.bytesIn) + Bytes(c.bytesOut));
        traffic := (traffic + (Bytes(c.bytesIn) + Bytes(c.bytesOut)) % WORD64) % WORD64;
      }
    }
    assert forall c :: c in sa.children <==> exists k :: 0 <= k < |sa.children| && sa.children[k] == c;
  }

  lemma AddWraps(x: nat, y: nat)
    ensures (x % WORD64 + y % WORD64) % WORD64 == (x + y) % WORD64
  {
    var q, p := x / WORD64, y / WORD64;
    assert x + y == (x % WORD64 + y % WORD64) + WORD64 * (q + p);
  }

  /** A long-lived, quiet, identified SA of an expected peer: a candidate for the idle reaper. */
  predicate Candidate(canon: Namer, sa: IkeSa, expected: set<string>) {
    && sa.remoteHost in expected && sa.name == "conn-" + sa.remoteHost && sa.state == "ESTABLISHED"
    && sa.tasksActive == [] && sa.tasksQueued == [] && sa.localId != "" && sa.remoteId != ""
    && (var age := ParseUint(sa.established, WORD64); age.Some? && age.value >= QUIET_PERIOD)
    && UsableId(sa.uniqueId)
    && exists c :: c in sa.children && CountedChild(canon, sa, c)
  }

  function PeerKey(sa: IkeSa): string {
    sa.remoteHost + "\0" + sa.localId + "\0" + sa.remoteId
  }

  /** One association of a peer pair: its id and the traffic the code sees. */
  datatype Association = Association(id: string, traffic: nat)

  function Group(canon: Namer, sas: seq<IkeSa>, expected: set<string>, key: string): seq<Association> {
    if sas == [] then []
    else
      var front, last := Group(canon, sas[..|sas| - 1], expected, key), sas[|sas| - 1];
      if Candidate(canon, last, expected) && PeerKey(last) == key
        then front + [Association(last.uniqueId, Traffic(canon, last))]
      else front
  }

  /** Of two associations of one peer pair, the one without traffic when the other has some. */
  function Victim(group: seq<Association>): Option<string> {
    if |group| == 2 && group[0].traffic == 0 && group[1].traffic > 0 then Some(group[0].id)
    else if |group| == 2 && group[1].traffic == 0 && group[0].traffic > 0 then Some(group[1].id)
    else None
  }

  ghost predicate IdleSelected(canon: Namer, sas: seq<IkeSa>, expected: set<string>, id: string) {
    exists key :: Victim(Group(canon, sas, expected, key)) == Some(id)
  }

  predicate DeletingSelected(canon: Namer, sas: seq<IkeSa>, expected: set<string>, id: string) {
    exists sa :: sa in sas && DeletingDuplicate(canon, sas, expected, sa) && sa.uniqueId == id
  }

  predicate DeletingDuplicate(canon: Namer, sas: seq<IkeSa>, expected: set<string>, sa: IkeSa) {
    && sa.remoteHost in expected && HealthyPeer(canon, sas, sa.remoteHost)
    && sa.name == "conn-" + sa.remoteHost && sa.state == "DELETING" && UsableId(sa.uniqueId)
  }

  method Examine(canon: Namer, sa: IkeSa, expected: set<string>) returns (candidate: bool, traffic: nat)
    ensures candidate == Candidate(canon, sa, expected) && traffic == Traffic(canon, sa)
  {
    var installed;
    traffic, installed := MeasureTraffic(canon, sa);
    var age := ParseUint(sa.established, WORD64);
    candidate := sa.remoteHost in expected && sa.name == "conn-" + sa.remoteHost && sa.state == "ESTABLISHED" &&
      sa.tasksActive == [] && sa.tasksQueued == [] && sa.localId != "" && sa.remoteId != "" &&
      age.Some? && age.value >= QUIET_PERIOD && UsableId(sa.uniqueId) && installed;
  }

  lemma GroupStep(canon: Namer, sas: seq<IkeSa>, i: nat, expected: set<string>, key: string)
    requires i < |sas|
    ensures Group(canon, sas[..i + 1], expected, key) == Group(canon, sas[..i], expected, key) +
      if Candidate(canon, sas[i], expected) && PeerKey(sas[i]) == key
        then [Association(sas[i].uniqueId, Traffic(canon, sas[i]))] else []
  {
    assert sas[..i + 1][..i] == sas[..i];
  }

  method GroupByPeer(canon: Namer, sas: seq<IkeSa>, expected: set<string>)
    returns (byPeer: map<string, seq<Association>>)
    ensures forall key :: Group(canon, sas, expected, key) == if key in byPeer then byPeer[key] else []
  {
    byPeer := map[];
    for i := 0 to |sas|
      invariant forall key :: Group(canon, sas[..i], expected, key) == if key in byPeer then byPeer[key] else []
    {
      var candidate, traffic := Examine(canon, sas[i], expected);
      ghost var before := byPeer;
      var peer := PeerKey(sas[i]);
      if candidate {
        byPeer := byPeer[peer := (if peer in byPeer then byPeer[peer] else []) +
          [Association(sas[i].uniqueId, traffic)]];
      }
      forall key ensures Group(canon, sas[..i + 1], expected, key) == if key in byPeer then byPeer[key] else [] {
        GroupStep(canon, sas, i, expected, key);
      }
    }
    assert sas[..|sas|] == sas;
  }

  method PickVictims(byPeer: map<string, seq<Association>>) returns (picked: seq<string>)
    ensures forall id :: id in picked <==> exists key :: key in byPeer && Victim(byPeer[key]) == Some(id)
  {
    picked := [];
    var rest := byPeer.Keys;
    while rest != {}
      invariant rest <= byPeer.Keys
      invariant forall id :: id in picked <==>
        exists key :: key in byPeer && key !in rest && Victim(byPeer[key]) == Some(id)
    {
      var key :| key in rest;
      rest := rest - {key};
      var v := Victim(byPeer[key]);
      if v.Some? { picked := picked + [v.value]; }
    }
  }

  method IdleDuplicateIkeIds(canon: Namer, sas: seq<IkeSa>, expected: set<string>) returns (ids: seq<string>)
    ensures forall id :: id in ids <==> IdleSelected(canon, sas, expected, id)
    ensures forall id :: id in ids <==>
      exists v: nat, w: nat :: QuietOfPair(canon, sas, expected, v, w) && sas[v].uniqueId == id
    ensures Sorted(ids, s => s)
  {
    var byPeer := GroupByPeer(canon, sas, expected);
    var picked := PickVictims(byPeer);
    ids := Sort(picked, s => s);
    SortSorts(picked, s => s);
    forall id ensures id in ids <==>
      exists v: nat, w: nat :: QuietOfPair(canon, sas, expected, v, w) && sas[v].uniqueId == id
    {
      IdleMeansQuietOfPair(canon, sas, expected, id);
    }
  }

  method DeletingDuplicateIkeIds(canon: Namer, sas: seq<IkeSa>, expected: set<string>) returns (ids: seq<string>)
    ensures forall id :: id in ids <==> DeletingSelected(canon, sas, expected, id)
  {
    var healthy: set<string> := {};
    for i := 0 to |sas|
      invariant forall h :: h in healthy <==> h in expected && HealthyPeer(canon, sas[..i], h)
    {
      var sa := sas[i];
      if sa.remoteHost in expected && HealthySa(canon, sa, sa.remoteHost) { healthy := healthy + {sa.remoteHost}; }
      assert sas[..i + 1] == sas[..i] + [sa];
    }
    assert sas[..|sas|] == sas;
    ids := [];
    for i := 0 to |sas|
      invariant forall id :: id in ids <==>
        exists sa :: sa in sas[..i] && DeletingDuplicate(canon, sas, expected, sa) && sa.uniqueId == id
    {
      var sa := sas[i];
      assert sas[..i + 1] == sas[..i] + [sa];
      if sa.remoteHost in healthy && sa.name == "conn-" + sa.remoteHost && sa.state == "DELETING"
        && UsableId(sa.uniqueId) {
        assert DeletingDuplicate(canon, sas, expected, sa);
        ids := ids + [sa.uniqueId];
      }
    }
  }

  // ---------------------------------------------------------------- safety of the union

  ghost predicate Selected(canon: Namer, sas: seq<IkeSa>, expected: set<string>, id: string) {
    IdleSelected(canon, sas, expected, id) || DeletingSelected(canon, sas, expected, id)
  }

  predicate IsMember(canon: Namer, sa: IkeSa, expected: set<string>, key: string, a: Association) {
    Candidate(canon, sa, expected) && PeerKey(sa) == key && a == Association(sa.uniqueId, Traffic(canon, sa))
  }

  /** The group's members are those at the given places of the listing, in order. */
  ghost predicate Places<S, T>(listing: seq<S>, group: seq<T>, at: seq<nat>, member: (S, T) -> bool) {
    && |at| == |group|
    && (forall p :: 0 <= p < |at| ==> at[p] < |listing| && member(listing[at[p]], group[p]))
    && (forall p, q :: 0 <= p < q < |at| ==> at[p] < at[q])
  }

  lemma PlacesExtend<S, T>(listing: seq<S>, group: seq<T>, at: seq<nat>, member: (S, T) -> bool, s: S, t: T)
    requires Places(listing, group, at, member)
    ensures Places(listing + [s], group, at, member)
    ensures member(s, t) ==> Places(listing + [s], group + [t], at + [|listing|], member)
  {
  }

  lemma {:induction false} GroupMembers(canon: Namer, sas: seq<IkeSa>, expected: set<string>, key: string)
    returns (at: seq<nat>)
    ensures Places(sas, Group(canon, sas, expected, key), at, (sa, a) => IsMember(canon, sa, expected, key, a))
    ensures forall i: nat :: i < |sas| && Candidate(canon, sas[i], expected) && PeerKey(sas[i]) == key ==> i in at
  {
    at := [];
    if sas != [] {
      var n := |sas| - 1;
      var last := Association(sas[n].uniqueId, Traffic(canon, sas[n]));
      var before := GroupMembers(canon, sas[..n], expected, key);
      at := before;
      GroupStep(canon, sas, n, expected, key);
      assert sas[..n + 1] == sas == sas[..n] + [sas[n]];
      PlacesExtend(sas[..n], Group(canon, sas[..n], expected, key), at,
        (sa, a) => IsMember(canon, sa, expected, key, a), sas[n], last);
      if Candidate(canon, sas[n], expected) && PeerKey(sas[n]) == key { at := at + [n]; }
      forall i: nat | i < |sas| && Candidate(canon, sas[i], expected) && PeerKey(sas[i]) == key ensures i in at {
        if i < n { assert sas[..n][i] == sas[i] && i in before; }
      }
    }
  }

  /** Whatever the idle selector picks has a busy partner with the same peer key. */
  lemma VictimHasPartner(canon: Namer, sas: seq<IkeSa>, expected: set<string>, id: string)
    returns (v: nat, w: nat)
    requires IdleSelected(canon, sas, expected, id)
    ensures v < |sas| && w < |sas| && v != w && sas[v].uniqueId == id
    ensures Candidate(canon, sas[v], expected) && Candidate(canon, sas[w], expected)
    ensures PeerKey(sas[v]) == PeerKey(sas[w])
    ensures Traffic(canon, sas[v]) == 0 && Traffic(canon, sas[w]) > 0
  {
    var key :| Victim(Group(canon, sas, expected, key)) == Some(id);
    var at := GroupMembers(canon, sas, expected, key);
    v, w := at[0], at[1];
    if Group(canon, sas, expected, key)[0].traffic != 0 { v, w := w, v; }
  }

  /** v and w are the only candidates of one peer key, v carried nothing and w something. */
  ghost predicate QuietOfPair(canon: Namer, sas: seq<IkeSa>, expected: set<string>, v: nat, w: nat) {
    && v < |sas| && w < |sas| && v != w
    && Candidate(canon, sas[v], expected) && Candidate(canon, sas[w], expected) && PeerKey(sas[v]) == PeerKey(sas[w])
    && (forall k :: 0 <= k < |sas| && Candidate(canon, sas[k], expected) && PeerKey(sas[k]) == PeerKey(sas[v]) ==>
      k == v || k == w)
    && Traffic(canon, sas[v]) == 0 && Traffic(canon, sas[w]) > 0
  }

  /** The idle selector picks exactly the quiet ones of such pairs, whichever is listed first. */
  lemma IdleMeansQuietOfPair(canon: Namer, sas: seq<IkeSa>, expected: set<string>, id: string)
    ensures IdleSelected(canon, sas, expected, id) <==>
      exists v: nat, w: nat :: QuietOfPair(canon, sas, expected, v, w) && sas[v].uniqueId == id
  {
    if IdleSelected(canon, sas, expected, id) {
      var v, w := IdleIsQuietOfPair(canon, sas, expected, id);
    }
    if v: nat, w: nat :| QuietOfPair(canon, sas, expected, v, w) && sas[v].uniqueId == id {
      QuietOfPairIsIdle(canon, sas, expected, v, w);
    }
  }

  lemma IdleIsQuietOfPair(canon: Namer, sas: seq<IkeSa>, expected: set<string>, id: string) returns (v: nat, w: nat)
    requires IdleSelected(canon, sas, expected, id)
    ensures QuietOfPair(canon, sas, expected, v, w) && sas[v].uniqueId == id
  {
    var key :| Victim(Group(canon, sas, expected, key)) == Some(id);
    var at := GroupMembers(canon, sas, expected, key);
    v, w := at[0], at[1];
    if Group(canon, sas, expected, key)[0].traffic != 0 { v, w := w, v; }
  }

  predicate Belongs(canon: Namer, sa: IkeSa, expected: set<string>, key: string) {
    Candidate(canon, sa, expected) && PeerKey(sa) == key
  }

  lemma {:induction false} GroupOfNone(canon: Namer, sas: seq<IkeSa>, expected: set<string>, key: string)
    requires forall k :: 0 <= k < |sas| ==> !Belongs(canon, sas[k], expected, key)
    ensures Group(canon, sas, expected, key) == []
  {
    if sas != [] { GroupOfNone(canon, sas[..|sas| - 1], expected, key); }
  }

  lemma {:induction false} GroupOfOne(canon: Namer, sas: seq<IkeSa>, expected: set<string>, key: string, v: nat)
    requires v < |sas| && forall k :: 0 <= k < |sas| ==> (Belongs(canon, sas[k], expected, key) <==> k == v)
    ensures Group(canon, sas, expected, key) == [Association(sas[v].uniqueId, Traffic(canon, sas[v]))]
  {
    var n := |sas| - 1;
    if v == n {
      GroupOfNone(canon, sas[..n], expected, key);
    } else {
      GroupOfOne(canon, sas[..n], expected, key, v);
    }
  }

  lemma {:induction false} GroupOfTwo(canon: Namer, sas: seq<IkeSa>, expected: set<string>, key: string, v: nat, w: nat)
    requires v < w < |sas|
    requires forall k :: 0 <= k < |sas| ==> (Belongs(canon, sas[k], expected, key) <==> k == v || k == w)
    ensures Group(canon, sas, expected, key) ==
            [Association(sas[v].uniqueId, Traffic(canon, sas[v])), Association(sas[w].uniqueId, Traffic(canon, sas[w]))]
  {
    var n := |sas| - 1;
    if w == n {
      GroupOfOne(canon, sas[..n], expected, key, v);
    } else {
      GroupOfTwo(canon, sas[..n], expected, key, v, w);
    }
  }

  lemma QuietOfPairIsIdle(canon: Namer, sas: seq<IkeSa>, expected: set<string>, v: nat, w: nat)
    requires QuietOfPair(canon, sas, expected, v, w)
    ensures IdleSelected(canon, sas, expected, sas[v].uniqueId)
  {
    var key := PeerKey(sas[v]);
    if v < w { GroupOfTwo(canon, sas, expected, key, v, w); } else { GroupOfTwo(canon, sas, expected, key, w, v); }
    assert Victim(Group(canon, sas, expected, key)) == Some(sas[v].uniqueId);
  }

  lemma SameKeySamePeer(a: IkeSa, b: IkeSa)
    requires PeerKey(a) == PeerKey(b) && '\0' !in a.remoteHost && '\0' !in b.remoteHost
    ensures a.remoteHost == b.remoteHost
  {
    assert PeerKey(a)[..|a.remoteHost|] == a.remoteHost && PeerKey(a)[|a.remoteHost|] == '\0';
    assert PeerKey(b)[..|b.remoteHost|] == b.remoteHost && PeerKey(b)[|b.remoteHost|] == '\0';
    IndexOfIs(PeerKey(a), '\0', |a.remoteHost|);
    IndexOfIs(PeerKey(b), '\0', |b.remoteHost|);
  }

  lemma CandidateIsHealthy(canon: Namer, sa: IkeSa, expected: set<string>)
    requires Candidate(canon, sa, expected)
    ensures HealthySa(canon, sa, sa.remoteHost)
  {
    var c :| c in sa.children && CountedChild(canon, sa, c);
  }

  lemma EstablishedIsNotDeleting(canon: Namer, sas: seq<IkeSa>, expected: set<string>, i: nat)
    requires DistinctIds(sas) && i < |sas| && sas[i].state == "ESTABLISHED"
    ensures !DeletingSelected(canon, sas, expected, sas[i].uniqueId)
  {
    forall sa | sa in sas && sa.uniqueId == sas[i].uniqueId ensures sa.state == "ESTABLISHED" {
      var j: nat :| j < |sas| && sas[j] == sa;
      assert j == i;
    }
  }

  /** Removing any part of what the two selectors choose leaves every expected peer that had
      a healthy SA with one. */
  lemma ReapingKeepsHealthyPeers(canon: Namer, sas: seq<IkeSa>, expected: set<string>, killed: set<string>,
                                 host: string)
    requires DistinctIds(sas) && forall h :: h in expected ==> '\0' !in h
    requires forall id :: id in killed ==> Selected(canon, sas, expected, id)
    requires host in expected && HealthyPeer(canon, sas, host)
    ensures HealthyPeer(canon, Survivors(sas, killed), host)
  {
    var sa :| sa in sas && HealthySa(canon, sa, host);
    var i: nat :| i < |sas| && sas[i] == sa;
    if sa.uniqueId in killed {
      EstablishedIsNotDeleting(canon, sas, expected, i);
      var v, w := VictimHasPartner(canon, sas, expected, sa.uniqueId);
      assert v == i;
      SameKeySamePeer(sas[v], sas[w]);
      CandidateIsHealthy(canon, sas[w], expected);
      BusyIsKept(canon, sas, expected, w);
      assert sas[w] in Survivors(sas, killed);
    } else {
      assert sa in Survivors(sas, killed);
    }
  }

  /** An established SA that is no candidate, or whose counted bytes are not a multiple of 2^64, is
      never selected. */
  lemma BusyIsKept(canon: Namer, sas: seq<IkeSa>, expected: set<string>, i: nat)
    requires DistinctIds(sas) && i < |sas| && sas[i].state == "ESTABLISHED"
    requires !Candidate(canon, sas[i], expected) || Traffic(canon, sas[i]) != 0
    ensures !Selected(canon, sas, expected, sas[i].uniqueId)
  {
    EstablishedIsNotDeleting(canon, sas, expected, i);
    if IdleSelected(canon, sas, expected, sas[i].uniqueId) {
      var v, w := VictimHasPartner(canon, sas, expected, sas[i].uniqueId);
    }
  }

  /** The exact guard: an established SA is safe in every listing that holds it if and only if it
      is no candidate of the idle reaper or its counted bytes are not a multiple of 2^64. */
  lemma SafeIffTrafficShows(canon: Namer, sa: IkeSa, expected: set<string>)
    requires sa.state == "ESTABLISHED"
    ensures (forall sas :: DistinctIds(sas) && sa in sas ==> !Selected(canon, sas, expected, sa.uniqueId))
            <==> !Candidate(canon, sa, expected) || Carried(canon, sa, |sa.children|) % WORD64 != 0
  {
    if Candidate(canon, sa, expected) && Traffic(canon, sa) == 0 {
      QuietCandidateIsReaped(canon, sa, expected);
    } else {
      forall sas | DistinctIds(sas) && sa in sas ensures !Selected(canon, sas, expected, sa.uniqueId) {
        var i: nat :| i < |sas| && sas[i] == sa;
        BusyIsKept(canon, sas, expected, i);
      }
    }
  }

  /** A candidate whose counted bytes read as none is selected beside a partner that carried one. */
  lemma QuietCandidateIsReaped(canon: Namer, sa: IkeSa, expected: set<string>)
    requires Candidate(canon, sa, expected) && Carried(canon, sa, |sa.children|) % WORD64 == 0
    ensures var sas := [sa, BusyPartner(canon, sa)]; DistinctIds(sas) && Selected(canon, sas, expected, sa.uniqueId)
  {
    var partner := BusyPartner(canon, sa);
    OneDigit("0");
    OneDigit("1");
    OneDigit("2");
    assert partner.children[0] in partner.children && CountedChild(canon, partner, partner.children[0]);
    assert Carried(canon, partner, 0) == 0 && Carried(canon, partner, 1) == 1;
    GroupOfPair(canon, sa, partner, expected);
    assert Victim(Group(canon, [sa, partner], expected, PeerKey(sa))) == Some(sa.uniqueId);
  }

  /** The same SA under another id, with one counted child that carried a single byte. */
  ghost function BusyPartner(canon: Namer, sa: IkeSa): IkeSa
    requires exists c :: c in sa.children && CountedChild(canon, sa, c)
  {
    var c :| c in sa.children && CountedChild(canon, sa, c);
    sa.(uniqueId := if sa.uniqueId == "1" then "2" else "1", children := [c.(bytesIn := "1", bytesOut := "0")])
  }

  /** Byte sums below 2^64: an established SA that carried traffic is never selected. */
  lemma TrafficIsKept(canon: Namer, sas: seq<IkeSa>, expected: set<string>, i: nat)
    requires DistinctIds(sas) && i < |sas| && sas[i].state == "ESTABLISHED"
    requires 0 < Carried(canon, sas[i], |sas[i].children|) < WORD64
    ensures !Selected(canon, sas, expected, sas[i].uniqueId)
  {
    BusyIsKept(canon, sas, expected, i);
  }

  function WrapSa(h: string, id: string, bytesIn: string): IkeSa {
    IkeSa("conn-" + h, id, "ESTABLISHED", "", h, "local", "remote", Decimal(QUIET_PERIOD), [], [],
          [ChildSa("child-" + h, REQ_ID, "INSTALLED", bytesIn, "1")])
  }

  /** The bound on byte sums is needed: 2^64 carried bytes, reported as 2^64 - 1 in and 1 out,
      read as none and the SA is reaped. */
  lemma WrappedTrafficIsReaped(canon: Namer, h: string)
    requires canon("child-" + h) == "child-" + h
    ensures var sas := [WrapSa(h, "1", Decimal(WORD64 - 1)), WrapSa(h, "2", "0")];
      && DistinctIds(sas) && Carried(canon, sas[0], 1) == WORD64
      && Selected(canon, sas, {h}, "1")
  {
    var a, b := WrapSa(h, "1", Decimal(WORD64 - 1)), WrapSa(h, "2", "0");
    OneDigit("0");
    OneDigit("1");
    OneDigit("2");
    WrapSaCounts(canon, h, "1", Decimal(WORD64 - 1));
    WrapSaCounts(canon, h, "2", "0");
    GroupOfPair(canon, a, b, {h});
    assert Victim(Group(canon, [a, b], {h}, PeerKey(a))) == Some("1");
  }

  lemma OneDigit(s: string)
    requires |s| == 1 && IsDigit(s[0])
    ensures ParseUint(s, WORD64) == Some(s[0] as int - '0' as int)
    ensures s != "0" ==> UsableId(s)
  {
    assert s[..0] == "" && DigitsValue(s) == s[0] as int - '0' as int;
    assert s[0] == '0' ==> s == "0";
  }

  lemma WrapSaCounts(canon: Namer, h: string, id: string, bytesIn: string)
    requires canon("child-" + h) == "child-" + h && UsableId(id)
    ensures var sa := WrapSa(h, id, bytesIn);
      |sa.children| == 1 && Candidate(canon, sa, {h}) && Carried(canon, sa, 1) == Bytes(bytesIn) + 1
  {
    var sa := WrapSa(h, id, bytesIn);
    OneDigit("1");
    assert sa.children[0] in sa.children && CountedChild(canon, sa, sa.children[0]);
    assert Carried(canon, sa, 0) == 0;
  }

  lemma GroupOfPair(canon: Namer, a: IkeSa, b: IkeSa, expected: set<string>)
    requires Candidate(canon, a, expected) && Candidate(canon, b, expected) && PeerKey(a) == PeerKey(b)
    ensures Group(canon, [a, b], expected, PeerKey(a)) ==
      [Association(a.uniqueId, Traffic(canon, a)), Association(b.uniqueId, Traffic(canon, b))]
  {
    var key := PeerKey(a);
    assert [a, b][..1] == [a] && [a][..0] == [];
    assert Group(canon, [], expected, key) == [];
    assert Group(canon, [a], expected, key) == [Association(a.uniqueId, Traffic(canon, a))];
  }

  /** reapDuplicateSAs, stopped anywhere: no expected peer loses its last healthy SA. */
  method ReapDuplicateSas<Conf>(canon: Namer, charon: Charon<Conf>, expected: set<string>) returns (ok: bool)
    modifies charon`sas
    requires DistinctIds(charon.sas) && forall h :: h in expected ==> '\0' !in h
    ensures forall h :: h in expected && HealthyPeer(canon, old(charon.sas), h) ==> HealthyPeer(canon, charon.sas, h)
    ensures forall sa :: sa in charon.sas ==> sa in old(charon.sas)
    ensures forall sa :: sa in old(charon.sas) && !Selected(canon, old(charon.sas), expected, sa.uniqueId) ==>
      sa in charon.sas
    ensures ok ==> forall sa :: sa in charon.sas ==> !Selected(canon, old(charon.sas), expected, sa.uniqueId)
  {
    var listed, sas := charon.ListSas();
    if !listed { return false; }
    var ids := DeletingDuplicateIkeIds(canon, sas, expected);
    var idle := IdleDuplicateIkeIds(canon, sas, expected);
    ids := ids + idle;
    ghost var killed: set<string>;
    ok, killed := TerminateAll(charon, ids);
    forall h | h in expected && HealthyPeer(canon, sas, h) ensures HealthyPeer(canon, charon.sas, h) {
      ReapingKeepsHealthyPeers(canon, sas, expected, killed, h);
    }
  }

  // ---------------------------------------------------------------- the selectors in the listing's own fields

  /** A name is reported exactly when an INSTALLED child has it as its canonical name, or has no
      canonical name and bears it itself. */
  lemma ReportsMeans(canon: Namer, sas: seq<IkeSa>, name: string)
    ensures Reports(canon, sas, name) <==> exists sa, c ::
      sa in sas && c in sa.children && c.state == "INSTALLED" &&
      ((canon(c.name) == name && name != "") || (canon(c.name) == "" && c.name == name))
  {
  }

  /** An INSTALLED child with the host's configured name and request id 1234. */
  ghost predicate HasOwnChild(canon: Namer, sa: IkeSa) {
    exists c :: c in sa.children && OwnChild(canon, sa, c)
  }

  predicate OwnChild(canon: Namer, sa: IkeSa, c: ChildSa) {
    c.state == "INSTALLED" && canon(c.name) == "child-" + sa.remoteHost && c.reqid == "1234"
  }

  lemma CandidateMeans(canon: Namer, sa: IkeSa, expected: set<string>)
    ensures Candidate(canon, sa, expected) <==>
      && sa.remoteHost in expected && sa.name == "conn-" + sa.remoteHost && sa.state == "ESTABLISHED"
      && |sa.tasksActive| == 0 && |sa.tasksQueued| == 0 && sa.localId != "" && sa.remoteId != ""
      && sa.established != "" && AllDigits(sa.established)
      && 120 <= DigitsValue(sa.established) < 0x1_0000_0000_0000_0000
      && sa.uniqueId != "" && AllDigits(sa.uniqueId) && 0 < DigitsValue(sa.uniqueId) < 0x1_0000_0000
      && HasOwnChild(canon, sa)
  {
    if HasOwnChild(canon, sa) {
      var c :| c in sa.children && OwnChild(canon, sa, c);
      assert CountedChild(canon, sa, c);
    }
  }

  /** The value of a 64-bit numeral; other text counts as nothing. */
  function CounterValue(s: string): nat {
    if s != "" && AllDigits(s) && DigitsValue(s) < 0x1_0000_0000_0000_0000 then DigitsValue(s) else 0
  }

  /** Every own INSTALLED child adds its bytes in both directions, and no other child adds any. */
  lemma CarriedAdds(canon: Namer, sa: IkeSa, c: ChildSa)
    ensures var more := sa.(children := sa.children + [c]);
      Carried(canon, more, |more.children|) == Carried(canon, sa, |sa.children|) +
        if OwnChild(canon, sa, c) then CounterValue(c.bytesIn) + CounterValue(c.bytesOut) else 0
    ensures Carried(canon, sa.(children := []), 0) == 0
  {
    CarriedPrefix(canon, sa, c, |sa.children|);
  }

  lemma {:induction false} CarriedPrefix(canon: Namer, sa: IkeSa, c: ChildSa, n: nat)
    requires n <= |sa.children|
    ensures Carried(canon, sa.(children := sa.children + [c]), n) == Carried(canon, sa, n)
  {
    if n > 0 { CarriedPrefix(canon, sa, c, n - 1); }
  }

  /** Without NUL in them, hosts and identities are read back from the peer key. */
  lemma PeerKeyMeans(a: IkeSa, b: IkeSa)
    requires '\0' !in a.remoteHost + a.localId + a.remoteId && '\0' !in b.remoteHost + b.localId + b.remoteId
    ensures PeerKey(a) == PeerKey(b) <==>
      a.remoteHost == b.remoteHost && a.localId == b.localId && a.remoteId == b.remoteId
  {
    if PeerKey(a) == PeerKey(b) {
      KeyIsJoined(a);
      KeyIsJoined(b);
      assert forall p :: p in KeyParts(a) + KeyParts(b) ==> '\0' !in p by {
        NoNulInParts(a);
        NoNulInParts(b);
      }
      JoinInjective(KeyParts(a), KeyParts(b), '\0');
      assert KeyParts(a)[0] == KeyParts(b)[0] && KeyParts(a)[1] == KeyParts(b)[1] && KeyParts(a)[2] == KeyParts(b)[2];
    }
  }

  function KeyParts(sa: IkeSa): seq<string> { [sa.remoteHost, sa.localId, sa.remoteId] }

  lemma NoNulInParts(sa: IkeSa)
    requires '\0' !in sa.remoteHost + sa.localId + sa.remoteId
    ensures forall p :: p in KeyParts(sa) ==> '\0' !in p
  {
    var all := sa.remoteHost + sa.localId + sa.remoteId;
    assert forall c :: c in sa.remoteHost ==> c in all;
    assert forall c :: c in sa.localId ==> c in all;
    assert forall c :: c in sa.remoteId ==> c in all;
  }

  lemma KeyIsJoined(sa: IkeSa)
    ensures PeerKey(sa) == Join(KeyParts(sa), '\0')
  {
    var parts := KeyParts(sa);
    assert parts[1..] == [sa.localId, sa.remoteId] && parts[1..][1..] == [sa.remoteId];
    assert Join(parts[1..], '\0') == sa.localId + "\0" + sa.remoteId;
  }

  /** A peer is healthy exactly when an ESTABLISHED SA of its own connection has an INSTALLED child
      with its configured name. */
  lemma HealthyMeans(canon: Namer, sas: seq<IkeSa>, host: string)
    ensures HealthyPeer(canon, sas, host) <==> exists sa, c ::
      sa in sas && c in sa.children &&
      sa.remoteHost == host && sa.name == "conn-" + host && sa.state == "ESTABLISHED" &&
      c.state == "INSTALLED" && canon(c.name) == "child-" + host
  {
    if HealthyPeer(canon, sas, host) {
      var sa :| sa in sas && HealthySa(canon, sa, host);
      var c :| c in sa.children && c.state == "INSTALLED" && canon(c.name) == "child-" + sa.remoteHost;
    }
    if sa, c :|
      sa in sas && c in sa.children &&
      sa.remoteHost == host && sa.name == "conn-" + host && sa.state == "ESTABLISHED" &&
      c.state == "INSTALLED" && canon(c.name) == "child-" + host
    {
      assert HealthySa(canon, sa, host);
    }
  }

  /** The deleting selector picks exactly the usable ids of DELETING SAs of healthy expected peers. */
  lemma DeletingMeans(canon: Namer, sas: seq<IkeSa>, expected: set<string>, id: string)
    ensures DeletingSelected(canon, sas, expected, id) <==>
      && id != "" && AllDigits(id) && 0 < DigitsValue(id) < 0x1_0000_0000
      && exists sa ::
           sa in sas && sa.uniqueId == id && sa.state == "DELETING" && sa.remoteHost in expected &&
           sa.name == "conn-" + sa.remoteHost && HealthyPeer(canon, sas, sa.remoteHost)
  {
    if sa :|
      sa in sas && sa.uniqueId == id && sa.state == "DELETING" && sa.remoteHost in expected &&
      sa.name == "conn-" + sa.remoteHost && HealthyPeer(canon, sas, sa.remoteHost) && UsableId(id)
    {
      assert DeletingDuplicate(canon, sas, expected, sa);
    }
  }
}
