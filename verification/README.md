# IPsec and VXLAN overlay network: a verified model

The overlay network is a control plane. It repeatedly reads the desired state (the entries of a
store) and reconciles it with systems it does not control: charon's connections and security
associations, the kernel's XFRM policies, and VXLAN routes and neighbours. Each of those systems is
modelled as mutable state whose requests may fail at any point; the theorems say what holds anyway.

| file | component |
|---|---|
| `Ownership.dfy` | the ownership protocol: fingerprints of own loads, transition authority over former local addresses, what a stale-local pass may kill |
| `Overlay.dfy` | the IPsec overlay object and its configure pass |
| `Vici.dfy` | charon: listings, loads and forced terminates with arbitrary outcomes |
| `PeerIdentities.dfy` | the check for stale peer identities |
| `Health.dfy` | missing children, and the two duplicate-SA reapers |
| `ChildNames.dfy` | CHILD_SA names and their canonical form |
| `Initiation.dfy` | interleaved initiation workers |
| `Xfrm.dfy` | XFRM policy reconciliation |
| `Vxlan.dfy` | the VXLAN diff and ledger |
| `MetadataStore.dfy`, `SimpleStore.dfy`, `Entries.dfy` | the two stores and their derived indexes |
| `FirewallReach.dfy` | chain reachability by bounded relaxation |
| `Topology.dfy` | topology normalization and prefix arithmetic |
| `JsonScan.dfy` | the duplicate-field scan |
| `Checker.dfy` | the connectivity checker's peers and counters |
| `Text.dfy`, `Ipv4.dfy` | splitting, numerals, byte order, sorting, dotted quads |

## How the model is built

- Every map the Go code ranges over is walked in an arbitrary order. Listings and children are
  sequences, so any order is covered.
- `net.ParseIP` and `net.ParseCIDR` are function parameters; the laws used about them
  (`ChildNames.Canonicalizing`, `Overlay.DashlessCidrs`) are stated, and the dotted-quad parser of
  `Ipv4.dfy` is proved to meet the first.
- A cached fingerprint is either the encoding of an identity, which decodes to it, or text that does
  not decode, such as the empty text of a discovered connection.
- The history of an overlay is a log of protocol steps with their outcomes. `Ownership.Run` replays
  it, and `Overlay.IpsecOverlay.Valid` says that the object's fields are what its log yields.
- The kernel's policy table is keyed by direction and selector (the SPD of section 4.4.1 of
  RFC 4301) and refuses to add an occupied selector. The VXLAN table has one row per overlay address,
  for peers and remote containers alike, and refuses a second one.
- Errors are accept or reject, success or failure; their texts are not modelled.

## Where the code and its intent differ

- `package/firewall-backend.sh:70` says orphan CATTLE_ chains are not followed. Reading
  `reach[pair[1]]` in awk creates a key, so an unreachable CATTLE_ chain that holds a jump is
  reported. `FirewallReach.HookedMeansLiveOrJumping` gives the exact verdict and
  `FirewallReach.OrphanIsReported` the inputs on which it differs from liveness.
- Byte counters are added in uint64. `Health.WrappedTrafficIsReaped` shows 2^64 carried bytes
  reading as none; `Health.SafeIffTrafficShows` gives the exact guard: an established SA is safe in
  every listing if and only if it is no idle candidate or its sum is not a multiple of 2^64.
- A VXLAN peer that comes back as a Self entry under another address than the local one is dropped
  from the ledger while its row stays (`Vxlan.SelfTakeoverExample`); under the local address the key
  is removed first and the row is deleted. `Vxlan.Overlay.Configure` keeps the ledger exact if and
  only if no such entry takes over an installed address, and by `Vxlan.MetadataSnapshotsAreSafe` a
  store built from metadata yields none as long as the local address reads as self's primary address.
- Connections are loaded under the whole host address and unloaded under its part before the slash,
  so dropping a cached `10.0.0.1/24` unloads the connection of `10.0.0.1`
  (`Overlay.SlashedHostUnloadsAnother`). `Overlay.IpsecOverlay.Configure` states exactly which
  connections survive.
- Child names canonicalize to the configured name if and only if the configured host is in canonical
  form (`ChildNames.ReportedNamesCanonicalize`).

## Model

| member | source | states |
|---|---|---|
| Ownership.FilterAlgorithms | backend/ipsec/connection.go:36-51 | the filter yields, in template order, exactly the algorithms that no blacklist entry is a prefix of |
| Ownership.AllowedAppends | backend/ipsec/connection.go:36-51 | one more algorithm is appended unless a blacklist entry is a prefix of it, so order and repetitions stay |
| Ownership.OneEndRekeys | backend/ipsec/connection.go:55-57 | of the two ends of a connection exactly one, the one with the greater address, puts off rekeying; the other keeps its template's interval |
| Ownership.FingerprintTracksInputs | backend/ipsec/connection.go:35-75 | two fingerprints are equal if and only if the addresses, remote host, mode and every template field that reaches the connection are, so any change of these loads the connection again and nothing else does |
| Ownership.AddressChangeIsAuthorized | backend/ipsec/connection.go:88-107 | between the overlay's own host-tunnel configurations, a local address change yields authority if and only if both are addresses, the template uses a pre-shared key and the identity is no expression |
| Ownership.AddressChangeIsHeld | backend/ipsec/connection.go:88-107 | after such a change is loaded the former address is held under the template's identity, or the former address itself if it has none |
| Ownership.CacheProvenance | backend/ipsec/connection.go:25-33 | in every run, a decodable fingerprint is cached for a remote if and only if it is the identity this process itself loaded last, with no discovery or unload since |
| Ownership.AuthorityProvenance | backend/ipsec/connection.go:86-107 | in every run, authority over an address is held if and only if some load replaced an owned connection at that address and nothing consumed or renewed it since |
| Ownership.AuthorityTracesToOwnLoads | backend/ipsec/connection.go:72-110 | every authority traces to two successive own loads for that remote, both in host-tunnel mode, the first at the former address, by pre-shared key and with one child of request id 1234, the second at another address; its identity is the first one's and no expression |
| Ownership.OnlyOwnLoadsCreateAuthority | backend/ipsec/connection.go:83-107 | a step that creates or changes authority is a successful load over an owned fingerprint; discovery, failed loads, reaping and unloading never do |
| Ownership.StaleLocalIkeIds | backend/ipsec/connection.go:127-173 | the selected ids are exactly those of a listed SA that is stale, and they are sorted |
| Ownership.StaleMeansLeftover | backend/ipsec/connection.go:127-173 | an id is selected if and only if its SA is listed alone under a usable id, for an expected peer's own connection, away from the current address, connecting, established or rekeying, with the local identity authority is held under unless it is still connecting without one, and with only the peer's children |
| Ownership.OwnedNameMeans | backend/ipsec/connection.go:154-165 | a child is the peer's if and only if it has request id 1234 and its name is the configured one, bare or with a positive 64-bit suffix |
| Ownership.ChildrenAreOwned | backend/ipsec/connection.go:154-165 | true exactly when every child carries the remote's configured name, bare or with a positive uint64 suffix, and the overlay's request id |
| Ownership.TerminationsAreProven | backend/ipsec/connection.go:127-207 | over whole runs, an id killed by a stale-local pass names exactly one listed SA, whose peer is expected, whose local address is a proven former one different from the current one, whose local identity is that of the proven load unless it is still connecting without one, whose state is one of three, and whose children are all owned |
| Ownership.AuthorityIsConsumedOnce | backend/ipsec/connection.go:194-206 | authority lost at a step of a run was discovered away, unloaded with its host, or consumed by a pass that had killed every SA it selected; it is held again later only after another load queued it |
| Ownership.AuthorityIsOneShot | backend/ipsec/connection.go:194-206 | between a pass that consumed a remote's authority and a later pass that finds an SA of the remote stale, a load queued that SA's address anew |
| Ownership.AuthorityOnlyForCachedHosts | backend/ipsec/ipsec.go:904-913 | in every run authority is held only for cached hosts, and never when no load was made in host-tunnel mode |
| Vici.TerminateIkeId | backend/ipsec/connection.go:175-184 | success means no SA has the id any more; in every case at most the SAs with that id are gone |
| Vici.TerminateAll | backend/ipsec/ipsec.go:527-532 | the terminate loop stops at the first failure, removes only SAs whose id is listed, and after success all of them |
| Overlay.HostsNamedMeaning | backend/ipsec/ipsec.go:127-133 | a host is found in a listing exactly when its connection name is listed |
| Overlay.DiscoverHosts | backend/ipsec/ipsec.go:124-134 | the found hosts are exactly those of the listed connection names, each without ownership evidence |
| Overlay.IpsecOverlay.LoadConns | backend/ipsec/ipsec.go:109-137 | success replaces the cache by the discovered hosts and drops all authority; failure changes nothing; either way charon backs every fingerprint |
| Overlay.IpsecOverlay.LoadHostConnection | backend/ipsec/connection.go:72-110 | a load fails only after three attempts; the cache and authority are those of one load step of the protocol; charon's connections change by this one configuration exactly when it was new and loaded, and none behind a fingerprint is lost |
| Overlay.IpsecOverlay.LoadSharedKey | backend/ipsec/ipsec.go:959-990 | success leaves the current key recorded for the address without its prefix length and for all addresses loaded before; no other record changes |
| Overlay.IpsecOverlay.DesiredMeans | backend/ipsec/ipsec.go:992-1000 | what is desired for a remote host, field by field: a connection to it alone, from the tunnel address in host-tunnel mode, one child of its name and request id 1234, the allowed proposals |
| Overlay.IpsecOverlay.AddHost | backend/ipsec/ipsec.go:951-1021 | success leaves the host attempted and cached with the currently desired identity; no other host's fingerprint changes |
| Overlay.IpsecOverlay.ReapStaleLocalSas | backend/ipsec/connection.go:186-207 | exactly the SAs with a killed id are gone, every killed id was selected, and authority is consumed exactly on success, when all selected ids were killed; a pass that killed anything is on record with what it killed, even when it stopped early |
| Overlay.IpsecOverlay.RemoveHost | backend/ipsec/ipsec.go:904-931 | the cache entry, its authority and the connection go together, and only when charon unloaded it |
| Overlay.IpsecOverlay.RemoveHosts | backend/ipsec/ipsec.go:901-931 | drops only hosts not attempted, goes on after failures, and on success leaves none of them cached; charon loses exactly the connections named by the part before the slash of a dropped host |
| Overlay.GrownBacks | backend/ipsec/ipsec.go:992-1021 | loading, whatever fails, loses no connection behind a fingerprint |
| Overlay.UnloadedWith | backend/ipsec/ipsec.go:926-930 | a host's connection is unloaded with the dropped ones if and only if the host is the part before the slash of one of them |
| Overlay.SlashedHostUnloadsAnother | backend/ipsec/ipsec.go:926-926 | dropping a cached host with a slash unloads the connection of the host before the slash |
| Overlay.IpsecOverlay.ScheduleInitiates | backend/ipsec/ipsec.go:434-450 | the targets are the requested hosts not in progress, strictly sorted, and exactly they are marked |
| Overlay.RemoteHostsMean | backend/ipsec/ipsec.go:263-271 | a host is remote if and only if it is not self's and an entry names it |
| Overlay.IpsecOverlay.PrepareEntries | backend/ipsec/ipsec.go:256-279 | after the entry loop the leftover and to-add policies are those of all remote entries, and without an error every remote host is cached as desired |
| Overlay.IpsecOverlay.Prepare | backend/ipsec/ipsec.go:234-279 | up to the end of the entry loop nothing is unloaded, terminated or changed in the policy table, whatever fails |
| Overlay.IpsecOverlay.Configure | backend/ipsec/ipsec.go:229-317 | nil means: the cached hosts are exactly the remote hosts of the entries, each with its desired fingerprint; no authority is left; no SA has a stale peer identity; charon holds what it held and these hosts' desired configurations, without those unloaded, so a host's connection survives if and only if it is no dropped host's part before the slash; the keys of all peers and remote hosts are loaded; every remote host that was not in progress is marked for initiation; for distinct overlay addresses the managed policies are exactly the tunnels of the entries, out from the tunnel address to each entry's host and in and forwarded the other way, and nothing already right was touched. Whatever fails, unless charon was killed for a stale identity, the SAs that are gone are exactly those of a stale-local pass on record. A failure up to the end of the entry loop, such as templates that do not reload or a remote address that does not parse, leaves policies, SAs and connections alone. Over a settled snapshot a pass asks for no connection and no policy to change |
| Overlay.LostIsProven | backend/ipsec/connection.go:186-207 | an SA lost in a pass on record was listed alone under its id, for an expected peer, at a proven former address different from the current one, with only owned children |
| Overlay.TargetsHaveEntryRoles | backend/ipsec/ipsec.go:1046-1105 | the policy targets of the entries play exactly the tunnel roles of the remote entries whose address parses |
| Overlay.IpsecOverlay.StaleIdentityMeans | backend/ipsec/ipsec.go:364-397 | a child of a canonical peer host is stale if and only if it is INSTALLED and the SA's identity is an address that is neither the host's nor the overlay address of a peer on the host |
| Overlay.IpsecOverlay.ConfigureTwice | backend/ipsec/ipsec.go:229-317 | after a pass without an error, for distinct overlay addresses, a second pass on the same snapshot and templates requests no connection to be loaded or unloaded and no policy to be deleted or added |
| Overlay.IpsecOverlay.ReconcileHealth | backend/ipsec/ipsec.go:477-508 | without an error exactly the missing hosts join the marked ones; in any case no other host is newly marked; and reaping, stopped anywhere, takes no expected peer's last healthy SA and no unselected SA |
| Overlay.IpsecOverlay.InstalledHostIsNotMarked | backend/ipsec/ipsec.go:490-500 | a canonical host with an INSTALLED child under its configured name, bare or suffixed, is not among the hosts a health pass marks |
| ChildNames.ReportedNamesCanonicalize | backend/ipsec/ipsec.go:319-362 | `child-h` and `child-h-n` for every uint64 n canonicalize to `child-h` if and only if h is a canonical host address |
| ChildNames.CanonicalNameIdempotent | backend/ipsec/ipsec.go:356-362 | canonicalization is idempotent on its nonempty results |
| ChildNames.CleanIpReads | backend/ipsec/ipsec.go:319-328 | a canonical address is read from its quoted form and from its form with a prefix length |
| ChildNames.OwnedNamesCanonicalize | backend/ipsec/connection.go:155-161 | all child names the stale reaper deems owned canonicalize to the host's configured name if and only if the host is canonical |
| ChildNames.NamedHostIsCanonical | backend/ipsec/ipsec.go:336-354 | a host read from any child name is a canonical address |
| ChildNames.Ipv4TextCanonicalizes | backend/ipsec/ipsec.go:324-328 | the dotted-quad fragment of the address parser meets the laws the proofs rely on |
| PeerIdentities.ExpectedPeerIdentities | backend/ipsec/ipsec.go:364-384 | a host is listed if and only if a peer entry of another host cleans to it, with exactly the identities of its peers |
| PeerIdentities.FindStaleIdentity | backend/ipsec/ipsec.go:386-430 | found if and only if some installed child of a peer host belongs to an SA with an identity that no peer of the host has |
| PeerIdentities.StaleMeans | backend/ipsec/ipsec.go:386-397 | stale if and only if INSTALLED, on another host that has a peer, and the identity is neither that host nor the overlay address of a peer on it |
| PeerIdentities.RestartForStalePeerIdentities | backend/ipsec/ipsec.go:399-432 | nil means no SA has a stale peer identity and charon is untouched; charon is killed only for a stale one |
| Health.InstalledChildren | backend/ipsec/ipsec.go:650-678 | the set holds a name exactly when some INSTALLED child reports it |
| Health.MissingHosts | backend/ipsec/ipsec.go:495-500 | exactly the expected hosts without an INSTALLED child are missing |
| Health.ReportsMeans | backend/ipsec/ipsec.go:650-678 | a name is reported if and only if an INSTALLED child has it as its canonical name, or has none and bears it |
| Health.InstalledHostIsNotMissing | backend/ipsec/ipsec.go:490-500 | a canonical host with an INSTALLED child under its configured name, bare or suffixed, is never scheduled as missing |
| Health.MeasureTraffic | backend/ipsec/ipsec.go:553-561 | the loop yields the carried bytes modulo 2^64, and whether any child counts |
| Health.CarriedAdds | backend/ipsec/ipsec.go:553-561 | every own INSTALLED child adds its bytes in both directions, and no other child adds any |
| Health.CandidateMeans | backend/ipsec/ipsec.go:544-564 | a candidate is an ESTABLISHED SA of an expected peer's own connection without tasks, identified on both sides, at least 120 seconds old, with a usable id and an own INSTALLED child |
| Health.PeerKeyMeans | backend/ipsec/ipsec.go:565-568 | two SAs share a peer key if and only if host and both identities are equal |
| Health.GroupByPeer | backend/ipsec/ipsec.go:541-568 | the map holds, per peer key, the candidates in listing order with their traffic |
| Health.PickVictims | backend/ipsec/ipsec.go:569-579 | exactly the quiet one of each two-candidate group whose other one carried traffic |
| Health.IdleDuplicateIkeIds | backend/ipsec/ipsec.go:536-582 | selects, sorted, exactly the ids of the quiet one of two candidates of one peer key, the only ones of that key, of which the other carried traffic, whichever is listed first |
| Health.IdleMeansQuietOfPair | backend/ipsec/ipsec.go:569-579 | the same equivalence between the grouping and the listing positions |
| Health.DeletingDuplicateIkeIds | backend/ipsec/ipsec.go:584-611 | selects exactly the usable ids of DELETING SAs of expected peers with a healthy SA |
| Health.DeletingMeans | backend/ipsec/ipsec.go:584-611 | an id is selected if and only if it is usable and a DELETING SA of a healthy expected peer's own connection has it |
| Health.HealthyMeans | backend/ipsec/ipsec.go:590-600 | a peer is healthy if and only if an ESTABLISHED SA of its own connection has an INSTALLED child with its configured name |
| Health.VictimHasPartner | backend/ipsec/ipsec.go:570-579 | an SA chosen as idle has a different candidate of the same peer key with traffic |
| Health.ReapingKeepsHealthyPeers | backend/ipsec/ipsec.go:510-534 | removing any part of what both selectors chose leaves every expected peer that had a healthy SA with one |
| Health.SafeIffTrafficShows | backend/ipsec/ipsec.go:536-582 | an ESTABLISHED SA is safe in every listing that holds it if and only if it is no idle candidate or its counted bytes are not a multiple of 2^64 |
| Health.QuietCandidateIsReaped | backend/ipsec/ipsec.go:570-579 | a candidate whose counted bytes read as none is selected beside a partner that carried one byte |
| Health.BusyIsKept | backend/ipsec/ipsec.go:553-579 | in any listing, an ESTABLISHED SA that is no candidate or whose bytes do not read as none is never selected |
| Health.TrafficIsKept | backend/ipsec/ipsec.go:553-579 | with byte sums below 2^64, an ESTABLISHED SA that carried traffic is never selected |
| Health.WrappedTrafficIsReaped | backend/ipsec/ipsec.go:560-560 | the bound is needed: an SA that carried 2^64 - 1 bytes in and 1 out is selected |
| Health.ReapDuplicateSas | backend/ipsec/ipsec.go:514-534 | stopped anywhere, no expected peer loses its last healthy SA, unselected SAs survive, and after success no selected one is left |
| Initiation.RunsKeepUnion | backend/ipsec/ipsec.go:434-464 | in every state of every interleaving, the hosts in progress are the disjoint union of the workers' remaining targets |
| Initiation.NoHostInitiatedTwice | backend/ipsec/ipsec.go:457-462 | two workers never initiate the same host at once |
| Initiation.WorkersNeverBlock | backend/ipsec/ipsec.go:453-463 | a worker with targets left can always step |
| Initiation.MarkedHostIsReleased | backend/ipsec/ipsec.go:457-462 | a marked host is released once its worker has taken twice as many steps as the host's place in its list, whatever the others do |
| Initiation.MarkedHostHasWorker | backend/ipsec/ipsec.go:440-446 | every marked host is in some worker's list, so the release bound covers all of them |
| Xfrm.ToKeyInjective | backend/ipsec/ipsec.go:1023-1044 | equal keys mean equal direction, selector and first-template endpoints and request id |
| Xfrm.GetRules | backend/ipsec/ipsec.go:767-786 | the map holds exactly the in, out and fwd policies of the table, each under its key |
| Xfrm.AddRules | backend/ipsec/ipsec.go:1046-1117 | one more entry: its keys leave the deletion candidates, and those not installed join the additions |
| Xfrm.DeletePolicies | backend/ipsec/ipsec.go:733-748 | goes on after failures; without one, exactly the given selectors are gone |
| Xfrm.AddPolicies | backend/ipsec/ipsec.go:750-765 | without a failure every given selector was free and now holds its policy, and all others are as before |
| Xfrm.AdditionsNeverCollide | backend/ipsec/ipsec.go:281-287 | after the leftovers are deleted no addition meets an occupied selector |
| Xfrm.ReconciliationKeeps | backend/ipsec/ipsec.go:1106-1114 | a policy already present under its key, or outside the three directions, is neither deleted nor added again |
| Xfrm.ReconciliationIsExact | backend/ipsec/ipsec.go:276-287 | error-free reconciliation leaves exactly the wanted three policies per remote entry, up to the fields of the key |
| Xfrm.ReconciledMeansTunnels | backend/ipsec/ipsec.go:1059-1103 | a table is reconciled if and only if, for each target, the out selector holds a tunnel from the local to the remote end, the in and forward selectors one from the remote to the local end, all with request id 1234, and no other managed selector is present |
| Xfrm.UndisturbedKeepsTunnels | backend/ipsec/ipsec.go:1106-1114 | sockets' policies and tunnels that were already right are the same policies afterwards |
| Xfrm.AppliedAddsTunnels | backend/ipsec/ipsec.go:1059-1103 | all that is new in the table is an ESP tunnel of priority 10000 |
| Xfrm.NothingToReconcile | backend/ipsec/ipsec.go:1106-1114 | over a reconciled table no policy is left to delete or to add |
| Vxlan.CalculateDiff | backend/vxlan/utils.go:11-45 | the four maps split the keys of both inputs by presence and equality, with the right values |
| Vxlan.Overlay.AddAll | backend/vxlan/vxlan.go:199-223 | exactly the successful adds are recorded and installed; skipped entries cause no kernel call |
| Vxlan.Overlay.DelAll | backend/vxlan/vxlan.go:226-249 | exactly the failed deletes stay recorded and installed |
| Vxlan.Overlay.CarryOver | backend/vxlan/vxlan.go:251-262 | entries present before and now are carried over with their installed value; a peer that became the node's own is dropped |
| Vxlan.Overlay.HandleEntries | backend/vxlan/vxlan.go:187-337 | one class of entries: the ledger equals the class's installed rows afterwards if and only if no installed peer address became a Self entry; rows of the other class, and of installed addresses still listed, are untouched |
| Vxlan.Overlay.LedgerAfter | backend/vxlan/vxlan.go:187-265 | the same equivalence on values, for any outcome of adds and deletes |
| Vxlan.Overlay.BuildPeersMapping | backend/vxlan/vxlan.go:164-183 | maps exactly the hosts with a known peer, each to one of its peers; every parsing entry with the peer flag and without the self flag maps its host |
| Vxlan.Overlay.Configure | backend/vxlan/vxlan.go:98-127 | both ledgers stay exact whatever fails, unless an installed peer address is listed as a Self entry under another address than the local one; every new row is a listed peer of another node, or a listed container on a host with an installed peer; after a failure-free pass every listed peer of another node whose addresses parse has a row, so does every parsing container whose host has an installed peer, and no row is unlisted; with nothing to do a pass makes no kernel call |
| Vxlan.Overlay.ConfigureAll | backend/vxlan/vxlan.go:98-127 | over any sequence of snapshots, each with its own local address and no Self entry under another address, and any failures, the ledgers equal what is installed |
| Vxlan.SelfTakeoverLosesRow | backend/vxlan/vxlan.go:251-262 | an installed peer that comes back as a Self entry while the local address is another one is forgotten, and its row stays |
| Vxlan.SelfTakeoverExample | backend/vxlan/vxlan.go:251-262 | a concrete such state and snapshot |
| Vxlan.MetadataSnapshotsAreSafe | store/metadata.go:296-302 | a peer map built from metadata holds no Self entry besides the local address's if and only if the local address reads as self's primary address or self is no peer; its maps are keyed by address |
| Vxlan.Overlay.ConfigureTwice | backend/vxlan/vxlan.go:98-127 | after a failure-free pass a second pass on the same snapshot makes no kernel call |
| MetadataStore.ServicesMapByName | store/metadata.go:355-376 | the map holds, per full name, the other system services in order |
| MetadataStore.LinkedPeersInfo | store/metadata.go:232-278 | the peers are exactly the containers of linked services on self's network, and the networks are theirs |
| MetadataStore.LinkedPeerMeans | store/metadata.go:232-278 | a container is a linked peer if and only if another system service runs it on a network of self's network name, and self links to that service, or self has no links and a service of that name links to self |
| MetadataStore.BuildPeersMap | store/metadata.go:296-302 | the peer map's keys are exactly the peers' addresses, each with the flagged entry of the last peer of that address |
| MetadataStore.FindPeers | store/metadata.go:290-302 | the networks are self's and those of the linked peers, and the peer map is that of self's service and the linked peers |
| MetadataStore.BuildIndexes | store/metadata.go:304-339 | entries are exactly the first eligible containers of each address, and all maps agree with them |
| MetadataStore.EntriesMean | store/metadata.go:304-339 | an entry is listed if and only if it is that of a container on one of the networks, with an address, sharing no other container's network, and the first such of its address; field by field |
| MetadataStore.UnlistedGivesNoEntry | store/metadata.go:304-314 | a container outside the networks, without an address, or on another container's network gives no entry |
| MetadataStore.Store.DoInternalRefresh | store/metadata.go:280-351 | a refresh leaves the indexes consistent and built from the snapshot's own networks, peers and containers |
| MetadataStore.Store.IsRemote | store/metadata.go:132-143 | true if and only if the address's first eligible container sits on a host with another address than self's |
| MetadataStore.LocalAndRemotePartition | store/metadata.go:324-338 | local and remote partition the entries' addresses, and remote non-peers are remote minus peer addresses |
| MetadataStore.RemoteMeansFirstContainerElsewhere | store/metadata.go:304-335 | an address is in the remote and not in the local map if and only if its first eligible container sits on a host with another address than self's |
| MetadataStore.ElsewhereByAddress | store/metadata.go:305-321 | keyed as the store does, this speaks of the containers' primary addresses |
| MetadataStore.OnlySelfAddressIsSelf | store/metadata.go:296-302 | a Self entry in the peer map sits under self's own primary address |
| SimpleStore.FindSelf | store/simple.go:73-85 | the first self entry, or none if there is none |
| SimpleStore.BuildMaps | store/simple.go:97-123 | the loop yields the four indexes of the entries that name an address |
| SimpleStore.Simple.Reload | store/simple.go:61-154 | the configuration is swapped exactly when the whole file loads; an override needs the replaced address to parse too |
| SimpleStore.LoadedMeans | store/simple.go:61-154 | a reload succeeds if and only if the first self entry's own address parses, and the override as well if there is one; the override replaces that entry's address, and exactly the entries that then name an address are kept |
| SimpleStore.NoSelfNoLoad | store/simple.go:73-85 | a file without a self entry is refused |
| SimpleStore.MapsMean | store/simple.go:97-123 | the four maps hold the addresses of the entries on self's host, on others, of peers, and of non-peers on others |
| SimpleStore.LastListedWins | store/simple.go:97-123 | of the entries of one address and map, the last one listed is in the map |
| SimpleStore.Simple.IsRemote | store/simple.go:190-203 | true if and only if the address is listed, and only on other hosts |
| SimpleStore.SimpleRebuildsMetadata | store/simple.go:61-154 | loading a metadata store's entries succeeds exactly when a self entry is listed and parses, keeps the entries, keeps the peers that occur in them, and rebuilds the same indexes if and only if the self entry has the self host's address |
| SimpleStore.SelfEntry | store/metadata.go:145-161 | the first self entry of a metadata store is that of the first container of self's primary address, and carries its host |
| SimpleStore.ReloadRebuilds | store/simple.go:61-154 | reloading a refreshed store's entries succeeds if and only if the first container of self's address is self's and that address parses; the indexes are the same if and only if that container is on self's host |
| SimpleStore.RefreshAndReload | store/simple.go:61-154 | the same for every snapshot with the stores' own key: a metadata refresh followed by a reload, in terms of primary addresses |
| FirewallReach.CollectEdges | package/firewall-backend.sh:74-84 | the edges are exactly the keys of the listed jumps and gotos, and edge_count is their number |
| FirewallReach.FieldsOfWords | package/firewall-backend.sh:74-75 | words free of blanks, joined by blanks, are read back as the fields of the line |
| FirewallReach.FieldsOfWord | package/firewall-backend.sh:74-75 | a word followed by any run of blanks is one field |
| FirewallReach.JumpsMeans | package/firewall-backend.sh:74-77 | a chain jumps to another if and only if a rule appended to it names the other after -j or -g |
| FirewallReach.BuiltinJumpIsReported | package/firewall-backend.sh:73-97 | a printed rule of any of the five built-in chains that jumps to a CATTLE_ chain makes the table active |
| FirewallReach.EdgesAreJumps | package/firewall-backend.sh:77-90 | splitting the keys gives back exactly the jumps of the rules |
| FirewallReach.Pass | package/firewall-backend.sh:89-92 | one pass in any order marks only reachable chains and relaxes every edge whose source was marked |
| FirewallReach.PassProgress | package/firewall-backend.sh:88-93 | a pass over closed marks leaves the marks as they are, and any other pass adds a mark |
| FirewallReach.Relax | package/firewall-backend.sh:86-93 | after edge_count + 1 passes the marked chains are exactly the reachable ones, and the keys are those plus the sources of jumps |
| FirewallReach.AnyHook | package/firewall-backend.sh:73-97 | the awk program succeeds exactly for hooked rule sets |
| FirewallReach.HookedMeansLiveOrJumping | package/firewall-backend.sh:70-95 | a rule set is hooked if and only if some CATTLE_ chain is reachable from a built-in chain or itself holds a jump |
| FirewallReach.OrphanIsReported | package/firewall-backend.sh:91-94 | rules whose only jump is that of an unreachable CATTLE_ chain are hooked, so reported, although nothing is live |
| FirewallReach.ConflictingHostRules | package/firewall-backend.sh:54-108 | the whole verdict, with the FORWARD DROP policy, the unreadable and unsupported cases, and an awk that breaks off |
| Topology.FirstOrLastIsAllHostBits | internal/topology/validate.go:157-165 | for addresses of the prefix the bitwise first/last test says all host bits are 0 or all are 1 |
| Topology.LastValue | internal/topology/validate.go:162-163 | the uint32 or with the host mask is the last address of the prefix |
| Topology.ParsedIsCanonical | internal/topology/validate.go:48-51 | only the canonical text of a prefix parses |
| Topology.ParsePrefixText | internal/topology/validate.go:126-126 | a printed prefix parses back to itself |
| Topology.ParseUsable | internal/topology/validate.go:149-155 | accepts exactly the canonical texts of usable addresses |
| Topology.ReadNodes | internal/topology/validate.go:56-103 | the loop with three seen-sets accepts exactly the node lists whose nodes are valid, pairwise different in id and both addresses, and include the local id |
| Topology.Normalize | internal/topology/validate.go:34-131 | accepts exactly the acceptable documents and returns their normal form |
| Topology.AcceptableMeans | internal/topology/validate.go:34-131 | a document is acceptable if and only if it is a good one in numbers and characters: its names, counts, prefix, node addresses and vxlan fields are within the stated limits |
| Topology.ReadMeans | internal/topology/validate.go:62-96 | a node is read if and only if its id is a name and its texts are two usable addresses, the underlay outside the prefix and the overlay strictly inside it |
| Topology.UsableIsValue | internal/topology/validate.go:149-155 | usable addresses are those outside 0.0.0.0, 255.255.255.255, 127/8, 224/4 and 169.254/16 |
| Topology.ContainsIsRange | internal/topology/validate.go:79-93 | a masked prefix contains exactly the addresses from its own on, as many as its size |
| Topology.VxlanMeans | internal/topology/validate.go:133-147 | vxlan settings are valid if and only if each field is within its limits and the interface name is a pasture- name of at most 15 characters |
| Text.LessMeans | internal/topology/validate.go:121-121 | the first differing byte decides the order of two ids, and a proper prefix comes first |
| Topology.NodeOrderIsIrrelevant | internal/topology/validate.go:62-121 | acceptance and the normal form do not depend on the order of the nodes |
| Topology.NormalizationIsIdempotent | internal/topology/validate.go:121-130 | normalizing a normal form gives it back |
| Topology.NormalFormShape | internal/topology/validate.go:62-121 | normal forms are strictly sorted by id, with distinct underlay addresses outside the prefix and distinct overlay addresses inside it, none its first or last |
| Topology.NodeCountBound | internal/topology/validate.go:86-93 | an accepted topology with prefix length b has at most 2^(32-b) - 2 nodes |
| JsonScan.ScanValue | internal/topology/decode.go:48-90 | the recursive scan over the decoder succeeds, and leaves the tokens, as the scan function says, for every token stream |
| JsonScan.ScanIsExact | internal/topology/decode.go:48-90 | for every value followed by any tokens, the scan consumes exactly the value's tokens if no object at any depth repeats a field name, and fails otherwise; a scan that does not reject repeated names consumes every value's tokens |
| JsonScan.TokensArePrefixFree | internal/topology/decode.go:42-46 | no document's tokens, with or without repeated names, are a proper prefix of another's, so the scan cannot stop early |
| Checker.BlockDrivesToZero | connectivitycheck/checker.go:383-401 | every block of checks with a surplus of three failures drives the counter to 0 within it |
| Checker.UnreachableIffSurplus | connectivitycheck/checker.go:383-401 | a peer at 3 is later at 0 if and only if some contiguous block since then has three more failures than successes |
| Checker.CountAt | connectivitycheck/checker.go:383-401 | the counter stays in 0..3 over every history |
| Checker.CountMoves | connectivitycheck/checker.go:383-401 | a success raises the counter by one up to 3, a failure lowers it by one down to 0 |
| Checker.TakePeerKeeps | connectivitycheck/checker.go:252-272 | one container of the loop keeps: open stop channels are those of peers not met yet and of peers taken, and no counter changes |
| Checker.CloseKeeps | connectivitycheck/checker.go:274-277 | a stale peer's stop channel is still open when it is closed, and closing it keeps the others |
| Checker.IndexShowsPeers | connectivitycheck/checker.go:289-298 | the address index shows an unreachable peer only if there is one, and with distinct addresses if and only if |
| Checker.ComputeOk | connectivitycheck/checker.go:285-300 | false exactly when checking is enabled and a considered peer of the index has count 0 |
| Checker.VerdictMeans | connectivitycheck/checker.go:285-300 | the verdict is good unless health checks are enabled and both services active; a bad one names a running container on an active host with a running check container whose peer has count 0, and with distinct addresses such a container gives a bad one |
| Checker.Checker.DoWork | connectivitycheck/checker.go:240-283 | the open stop channels are exactly those of the listed peers, none is closed twice, retained peers keep their counters, a failed fetch changes nothing, and with distinct addresses the verdict is bad if and only if checking is enabled and a considered peer has count 0 |
| Checker.Checker.Update | connectivitycheck/checker.go:377-401 | one check changes one peer's counter and check time as its history says and no other |
| Checker.Checker.Ping | connectivitycheck/checker.go:302-315 | a ping counts as a success of the peer with that address, and of no other |
| Checker.Checker.PeerRound | connectivitycheck/checker.go:341-375 | a round checks a peer if and only if it is considered and was not checked less than the interval ago; the check is then recorded with its time, and otherwise nothing changes |

## Left out

- VICI sockets, netlink, processes, name spaces, conntrack, charon's launch and kill, timers and sleeps: foreign calls; their outcomes are arbitrary in the model.
- Overlay.IpsecOverlay.Configure: syncing host routes enters only as an outcome, and the store is one snapshot throughout the pass; what the process does after charon was killed is not modelled.
- Vxlan.Overlay.Configure: one entry's add and del are all or nothing, addresses are IPv4, and the forwarding hardware address of an installed entry is not modelled, because the code deliberately does not process updates.
- Initiation: retries, delays and conntrack cleanup within one initiation are one step that ends.
- Checker.Checker.DoWork: a refresh is one step; checks by other goroutines between two of its reads are not interleaved. Peer objects are values in a table by identity, shared by both maps as the pointers are.
- Checker: building the snapshot from metadata replies, which copies fields; the HTTP handlers and the port handoff, which are input and output.
- MetadataStore.Store.DoInternalRefresh: fetching the metadata and finding the self container, host and service by client address.
- JsonScan.ScanValue: the decoder's own lexing and grammar checks; the model starts from the tokens it yields before its first error.
- Topology.Normalize: error texts and their order, the plan's digest and its estimates; sorting returns a new list instead of swapping in place.
- FirewallReach: the backend decision table around the verdict, finite case analysis.
- The JSON encoding of fingerprints, templates, the ARP proxy, the command line and the resolver command: input, output or libraries.
