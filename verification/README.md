# Verification of the Kaonic VPN control plane and the diagnostic mesh

This project models three parts of the repository in Dafny and proves what they are for.

**The VPN route control plane** (`kaonic-vpn`). Peers announce IPv4 subnets. A node keeps a
registry of peers, builds a forwarding table from it, and mirrors the table into kernel
routes and NETMAP rules. The model covers the block arithmetic, the table and its lookup,
the kernel sync with failing commands, the handlers that change the registry, and whole runs
of those handlers.

**The out-link life cycle** of a peer (`kaonic-vpn`): link requests, link events and the
watchdog, cut at their await points and interleaved arbitrarily, with the queue of the
transport's mutex.

**The diagnostic control plane** (`kaonic-atak-plugin`): the command text, the state that
applies each command once and keeps the records of an enable window, and the flood of a
command over a mesh of nodes.

Byte-rate sampling (`kaonic-vpn/src/vpn/metrics.rs`) is a fourth, small part.

## Layout

| file | contents |
|---|---|
| `Common.dfy` | result types, machine widths |
| `Cidrs.dfy` | addresses and canonical blocks: bounds, overlap, nesting |
| `Addressing.dfy` | tunnel IPs and LAN aliases derived from a destination hash |
| `LinkLifecycle.dfy` | link sections as functions, the tasks that interleave them, and the transport's mutex |
| `Peers.dfy` | peer object and registry |
| `Routing.dfy` | building the forwarding table and looking addresses up |
| `Translations.dfy` | local route translations and the rewriting they cause |
| `Platform.dfy` | kernel routes and NETMAP chains, with failing commands |
| `RouteSync.dfy` | one kernel sync as a relation, and what it guarantees |
| `VpnModel.dfy` | the control plane as a state machine, one transition per handler |
| `Runtime.dfy` | the runtime object; its handlers are proved to be those transitions |
| `VpnRuns.dfy` | what holds on every run |
| `Instances.dfy` | concrete runs that show where a stronger claim fails |
| `EndToEnd.dfy` | two nodes: traffic to an announced alias |
| `Driver.dfy` | the runtime object on a sequence of events: what it does is a run |
| `Metrics.dfy` | rate sampling |
| `Utf8.dfy`, `Commands.dfy` | text functions, command parser and printer |
| `Diagnostics.dfy` | the diagnostic state and its reference meaning on logs |
| `Mesh.dfy` | flooding over a graph of nodes |

Where the source updates fields in place, the model is a class whose methods follow the
source and are proved equal to a function or relation on values; the theorems are about that
function or relation. Hash maps are enumerated in an arbitrary order, kernel commands fail
arbitrarily, and clock reads, transport answers, the presence of iptables and the numbers of
the kernel commands that fail are inputs. So a sync that skips a command or stops for no
reason does not meet its contract.

## Where a stronger claim is false

Each of these has a concrete instance, and the exact condition under which the claim holds.

- A lookup does not depend on the order of the peers, **exactly** for addresses that no two
  peers share as their tunnel IP (`Routing.OrderFreeExactly`). Sharing is possible in every
  network (`Addressing.TunnelIpCollides`).
- Rewriting a LAN address to its alias and back gives the same host **exactly** when no
  earlier local /24 has the same alias (`Translations.LanRoundTripExactly`); aliases do collide
  (`Addressing.AliasCollides`). The other direction always holds
  (`Translations.AliasRoundTrip`).
- After a sync without failing commands the kernel holds the installed routes **exactly** when
  it held nothing beyond the installed and the desired ones before
  (`RouteSync.AgreementExactly`). A sync that fails half way leaves a route behind that a later
  flawless sync does not delete (`Instances.StrayRouteRun`), or deletes one that stays on the
  installed list (`Instances.FailedAdvertiseOverlaps`). Whatever failed earlier, all installed
  routes are in the kernel while the last sync did not fail (`VpnRuns.InstalledInKernel`).
- The source says that its in-flight flag keeps link attempts of one peer from overlapping.
  On a run they do **exactly** when an event or watchdog section clears the flag during an
  attempt, and another request begins before that attempt has come back
  (`LinkLifecycle.NoOverlapExactly`). The mutex of the transport shuts out a request spawned
  during the attempt (`LinkLifecycle.NewcomerWaits`), but not two requests that have both
  found the old link closed before either decides (`LinkLifecycle.RequestsCanOverlap`). As
  long as the flag is set, a request is waiting whose transport call clears it when it
  returns (`LinkLifecycle.FlagHasOwner`).
- `docs/Diagnostics.md` says that a node applies each command identifier once. It does so
  **exactly** while the identifier is among its last 2048 commands of at most 24 hours
  (`Diagnostics.AppliedOnceExactly`), and again after that
  (`Diagnostics.ForgottenIsReapplied`). In a flood no node applies the command twice
  **exactly** as long as no copy reaches a node that has applied and forgotten it
  (`Mesh.AppliedOnceThroughoutExactly`); on a mesh of two nodes a copy that is a day late is
  applied again (`Mesh.ForgetfulFlood`).
- `status` reports diagnostics as enabled **exactly** when records are stored and at least one
  whole second of the window is left (`Diagnostics.StatusExactly`); in the last second it
  denies a recording that goes on (`Diagnostics.StatusCanDenyRecording`).
- Installed routes are apart from the local ones after each completed sync
  (`VpnRuns.SyncedStateSeparates`). They are so throughout a run **exactly** when every refresh
  of the local routes discovers, and every advertise request whose sync fails brings, only
  routes that are, with their aliases, apart from the ones installed at the time
  (`VpnRuns.SeparatedThroughoutExactly`). Two runs from the start of a node break it: a refresh
  that discovers an installed subnet (`Instances.RefreshOverlaps`), and an advertise request for
  one whose sync fails (`Instances.FailedAdvertiseOverlaps`).
- What the PREROUTING chain in the kernel rewrites is restored by its POSTROUTING chain
  **exactly** when the last PREROUTING rule has its partner or repeats an earlier alias
  (`VpnRuns.KernelUndoesExactly`). That is so while no kernel command has failed
  (`VpnRuns.KernelAliasesUndo`); a rule sync that stops between the two rules of a pair breaks
  it (`Instances.HalfRulesRun`).
- A packet for an announced alias lands in the LAN behind it **exactly** when some PREROUTING
  rule matches it (`EndToEnd.LandsExactly`). With the rules of the announced routes in place it
  does, and a sync that completes with iptables puts them there (`VpnRuns.RulesAfterSync`,
  `EndToEnd.AliasTraffic`); after a failed sync the next announce can carry an alias that
  no rule rewrites (`EndToEnd.AnnouncedWithoutRule`).

## Model

| member | source | states |
|---|---|---|
| Cidrs.BoundsExact | kaonic-vpn/src/vpn/runtime.rs:1189-1198 | `cidr_bounds` gives the exact ends of the block for every prefix 0 to 32, and they fit 32 bits |
| Cidrs.OverlapIsSharedAddress | kaonic-vpn/src/vpn/runtime.rs:1183-1187 | `routes_overlap` holds exactly when some address lies in both blocks, and exactly when one block covers the other |
| Cidrs.EqualLengthDisjoint | kaonic-vpn/src/vpn/router.rs:72 | two subnets of one length that share an address are the same subnet, so ties of the sort do not matter |
| Cidrs.SharedAddressNests | kaonic-vpn/src/vpn/router.rs:84-88 | of two subnets around one address the shorter prefix covers the longer |
| Addressing.WrappingHash | kaonic-vpn/src/vpn/runtime.rs:1264-1267 | the wrapping byte loop computes the polynomial hash of the bytes, reduced once |
| Addressing.DeriveTunnelIp | kaonic-vpn/src/vpn/runtime.rs:1257-1271 | with the source's 64-bit and 32-bit wrapping the result is base + 1 + (sum of octet i times 131^(15-i), modulo 2^64) modulo the usable hosts; networks longer than /30 are refused |
| Addressing.HornerIsWeightedSum | kaonic-vpn/src/vpn/runtime.rs:1264-1267 | hashing byte by byte gives the sum of the bytes weighted with the powers of the multiplier |
| Addressing.EveryHostNumber | kaonic-vpn/src/vpn/runtime.rs:1268-1270 | the hash matters: every usable host number up to 256 is that of some hash |
| Addressing.TunnelIpInside | kaonic-vpn/src/vpn/runtime.rs:1262-1270 | for every network up to /30 and every hash the tunnel IP lies strictly between the first and last address |
| Addressing.TunnelIpCollides | kaonic-vpn/src/vpn/runtime.rs:1264-1268 | two different 16-byte hashes with one tunnel IP, in every network |
| Addressing.ExportLocalRoute | kaonic-vpn/src/vpn/runtime.rs:1145-1166 | the wrapping 32-bit seed chain equals the polynomial over exact integers reduced once; other prefix lengths are returned unchanged |
| Addressing.ExportedExactly | kaonic-vpn/src/vpn/runtime.rs:1145-1166 | the alias in closed form over hash, network address and length; only a /24 has one of its own |
| Addressing.AliasApart | kaonic-vpn/src/vpn/runtime.rs:1143-1166 | the alias of a /24 is a /24 of 192.168.100-254 and shares no address with it |
| Addressing.AliasCollides | kaonic-vpn/src/vpn/runtime.rs:1149-1160 | two LANs of one node with the same alias |
| LinkLifecycle.ActiveAlwaysClean | kaonic-vpn/src/vpn/runtime.rs:686-693 | on every interleaving a peer in state Active has no attempts, no attempt timestamp, no cooldown and no request in flight |
| LinkLifecycle.ActiveExactly | kaonic-vpn/src/vpn/runtime.rs:1072-1093 | a peer is in state Active exactly if the link was seen active and no section moved it away since |
| LinkLifecycle.CooldownRespected | kaonic-vpn/src/vpn/runtime.rs:1029-1038 | after a close or watchdog reset at t no attempt begins before t + 3 unless the link was seen active in between |
| LinkLifecycle.OutcomeExactly | kaonic-vpn/src/vpn/runtime.rs:1022-1042 | by the reported status: a pending, handshaking, active or stale link is reused; else cooldown, then flag decide |
| LinkLifecycle.DecisionExactly | kaonic-vpn/src/vpn/runtime.rs:1022-1046 | on every run an attempt begins exactly with no link or a closed one, the cooldown over and the flag clear, and sets state, counter, stamp and flag; any other decision changes no field |
| LinkLifecycle.UsableLinkKept | kaonic-vpn/src/vpn/runtime.rs:1022-1027 | with a pending, handshaking, active or stale link the peer stays as it is |
| LinkLifecycle.CooldownExact | kaonic-vpn/src/vpn/peer.rs:116-123 | the stored cooldown ends three seconds after the last close, in saturating arithmetic, and is 0 once the link was seen active |
| LinkLifecycle.FlagExact | kaonic-vpn/src/vpn/peer.rs:101-109 | the flag is set exactly since an attempt that nothing has cleared |
| LinkLifecycle.StateExact | kaonic-vpn/src/vpn/runtime.rs:1072-1093 | the stored state is the one the last telling section stands for |
| LinkLifecycle.AttemptCounterExact | kaonic-vpn/src/vpn/runtime.rs:1043-1045 | `reconnect_attempts` is the number of attempts begun since the link was last seen active, modulo 2^32 |
| LinkLifecycle.AttemptStampExact | kaonic-vpn/src/vpn/peer.rs:90-99 | `link_attempt_ts` is the start of the latest attempt, cleared by activation and close |
| LinkLifecycle.ClosesOnlyStuck | kaonic-vpn/src/vpn/runtime.rs:1061-1066 | the watchdog closes a link only after seeing it pending or in handshake for at least ten seconds on that visit |
| LinkLifecycle.StuckIsClosed | kaonic-vpn/src/vpn/runtime.rs:1061-1066 | on seeing a link, the watchdog goes on to close it exactly if it is pending or in handshake for ten seconds |
| LinkLifecycle.FlagHasOwner | kaonic-vpn/src/vpn/runtime.rs:1047-1051 | as long as the in-flight flag is set a request is waiting whose transport call will clear it when it returns |
| LinkLifecycle.NoWedge | kaonic-vpn/src/vpn/runtime.rs:1022-1046 | with no request waiting, no link or a closed one and the cooldown over, the next request starts |
| LinkLifecycle.QueueAlwaysOk | kaonic-vpn/src/vpn/runtime.rs:1015-1047 | exactly the tasks that wait for the transport are in the queue of its mutex, each once |
| LinkLifecycle.HeadCanGoOn | kaonic-vpn/src/vpn/runtime.rs:1047-1051 | among the tasks of one peer the first in the queue always has a step that leaves it |
| LinkLifecycle.NewcomerWaits | kaonic-vpn/src/vpn/runtime.rs:1015-1047 | a request spawned while another is linking stays behind it in the queue and has not decided before that attempt is back |
| LinkLifecycle.GuardKeptExactly | kaonic-vpn/src/vpn/peer.rs:101-109 | one step: from a flag that tells whether a request is linking, the flag goes on telling the truth exactly when no other task clears it during an attempt |
| LinkLifecycle.NoOverlapExactly | kaonic-vpn/src/vpn/peer.rs:60-62 | on every run: no two attempts overlap up to a state exactly if no section of another task clears the flag during an attempt that outlives the begin of another |
| LinkLifecycle.RequestsCanOverlap | kaonic-vpn/src/vpn/peer.rs:60-62 | a run, with the mutex, on which two requests of one peer have both begun and wait for the transport to link |
| Peers.Peer.RefreshRoutes | kaonic-vpn/src/vpn/runtime.rs:568-570 | stores the routes and the time they stop being live, and nothing else |
| Peers.Peer.OnActivated | kaonic-vpn/src/vpn/runtime.rs:687-693 | the Activated handler leaves a clean Active link and the routes untouched |
| Peers.Peer.OnClosed | kaonic-vpn/src/vpn/runtime.rs:704-710 | the Closed handler and the watchdog reset set Closed, clear the attempt and flag and start the cooldown |
| Peers.Peer.SyncLinkState | kaonic-vpn/src/vpn/runtime.rs:1076-1093 | the effect of each transport status on the peer's link fields |
| Peers.Peer.DecideOutLink | kaonic-vpn/src/vpn/runtime.rs:1022-1046 | the section between the awaits of a link request: its four outcomes and their effect |
| Peers.Peer.TryBeginLinkRequest | kaonic-vpn/src/vpn/peer.rs:101-105 | succeeds exactly if the flag was clear, and sets it |
| Peers.PeerRegistry.GetOrCreate | kaonic-vpn/src/vpn/peer.rs:185-194 | the peer filed under the hash, created only if there is none |
| Peers.PeerRegistry.All | kaonic-vpn/src/vpn/peer.rs:196-198 | every peer exactly once, in any order |
| Routing.ClaimRoute | kaonic-vpn/src/vpn/router.rs:50-65 | one announced route keeps the link between claims met, claimed routes and conflicts |
| Routing.Build | kaonic-vpn/src/vpn/router.rs:29-78 | the table has exactly the subnets with a single live claimant that do not cover our tunnel IP, longest first without repeats, and the last writer of each tunnel IP |
| Routing.SortByLengthSorts | kaonic-vpn/src/vpn/router.rs:72 | the sort puts longer prefixes first and neither drops nor repeats |
| Routing.Resolve | kaonic-vpn/src/vpn/router.rs:80-90 | the loop returns the tunnel owner, else the owner of the first matching subnet |
| Routing.LookupIsLongestMatch | kaonic-vpn/src/vpn/router.rs:33-90 | a lookup gives a tunnel owner if there is one, else exactly the owner of the longest surviving subnet, else none |
| Routing.LongestUnique | kaonic-vpn/src/vpn/router.rs:68-77 | the longest surviving subnet around an address is unique, with its owner |
| Routing.SecondClaimantWithdraws | kaonic-vpn/src/vpn/router.rs:56-64 | a route with two live claimants is in no table, for either of them |
| Routing.SameAnswer | kaonic-vpn/src/vpn/router.rs:37-90 | all tables of the same peers answer alike for an unshared address |
| Routing.OrderFreeExactly | kaonic-vpn/src/vpn/router.rs:37-41 | the answer is independent of order exactly for unshared addresses |
| Translations.MergeRoutes | kaonic-vpn/src/vpn/runtime.rs:1118-1123 | the union of discovered and advertised routes without repeats |
| Translations.RulesOnlyForLans | kaonic-vpn/src/vpn/runtime.rs:1125-1141 | rules exist exactly for the distinct local /24s when aliasing is on, each with a disjoint /24 alias |
| Translations.NetmapInverts | kaonic-vpn/src/vpn/platform.rs:128-139 | a NETMAP rewrite lands in the target, keeps the host bits, and is undone by the opposite rewrite |
| Translations.AliasRoundTrip | kaonic-vpn/src/vpn/platform.rs:122-140 | as rule lists on bare addresses: an alias address rewritten by the first PREROUTING rule and then by the first POSTROUTING rule is itself again, with its host octet kept inside, even when aliases collide |
| Translations.LanRoundTripExactly | kaonic-vpn/src/vpn/platform.rs:122-140 | a LAN address comes back from its alias to the same host exactly when no earlier local /24 has that alias |
| Translations.UndoesExactly | kaonic-vpn/src/vpn/platform.rs:122-140 | when the appending of rule pairs stops half way, the chains undo each other exactly if the last PREROUTING rule has its partner or repeats an earlier alias |
| Platform.Kernel.SyncRouteTranslations | kaonic-vpn/src/vpn/platform.rs:79-143 | without iptables nothing changes; with it, all commands are run and exactly the rules of the translations and the TCP rule are in place, unless the environment lets a command fail, which leaves the old chains, flushed ones, or the first rules |
| RouteSync.CompletedSyncSeparates | kaonic-vpn/src/vpn/runtime.rs:467-501 | installed and conflicted split the table's subnets; installed ones share no address with a LAN or alias and do not cover our tunnel IP; conflicted ones do share one |
| RouteSync.AgreementExactly | kaonic-vpn/src/vpn/runtime.rs:483-500 | after a sync without failures kernel and bookkeeping agree exactly when the kernel held nothing else before |
| Runtime.VpnRuntime.constructor | kaonic-vpn/src/vpn/runtime.rs:162-218 | start merges discovered and configured routes, seeds the configured peers, builds the first table and syncs |
| Runtime.VpnRuntime.BuildTable | kaonic-vpn/src/vpn/runtime.rs:442-448 | the next table is a table of the registered peers |
| Runtime.VpnRuntime.RebuildRouter | kaonic-vpn/src/vpn/runtime.rs:442-450 | the table becomes one of the registered peers now, nothing else changes |
| Runtime.VpnRuntime.ApplyPlan | kaonic-vpn/src/vpn/runtime.rs:483-496 | the kernel loops run every command up to the first failing one, delete only stale routes, add only desired ones, and on success leave all desired routes and rules in place |
| Runtime.VpnRuntime.SyncRoutes | kaonic-vpn/src/vpn/runtime.rs:457-506 | the whole sync is a sync transition, completed or not |
| Runtime.VpnRuntime.HandlePeerAnnounce | kaonic-vpn/src/vpn/runtime.rs:545-575 | accepted exactly for allowed peers; then routes and expiry are stored, the table rebuilt and the kernel synced |
| Runtime.VpnRuntime.HandleControl | kaonic-vpn/src/vpn/runtime.rs:926-936 | a Hello or Routes frame refreshes a registered sender and always rebuilds and syncs |
| Runtime.VpnRuntime.ReplacePeerPolicy | kaonic-vpn/src/vpn/runtime.rs:255-293 | a malformed list changes nothing; otherwise policy, registry, table and kernel follow |
| Runtime.VpnRuntime.WatchdogExpire | kaonic-vpn/src/vpn/runtime.rs:849-864 | overdue routes are cleared, with a rebuild and sync exactly if there were any |
| Runtime.VpnRuntime.ReplaceAdvertisedRoutes | kaonic-vpn/src/vpn/runtime.rs:295-304 | local routes become the merged list, and the kernel is synced without a rebuild |
| Runtime.VpnRuntime.RefreshLocalRoutes | kaonic-vpn/src/vpn/runtime.rs:527-531 | only the local routes change |
| Runtime.VpnRuntime.OutLinkActivated | kaonic-vpn/src/vpn/runtime.rs:686-693 | the event changes the link fields of that peer only and no route state |
| Runtime.VpnRuntime.OutLinkClosed | kaonic-vpn/src/vpn/runtime.rs:703-710 | the same for the Closed event |
| Runtime.SeedPeers | kaonic-vpn/src/vpn/runtime.rs:268-278 | a slot for every listed hash except our own, existing ones kept |
| Runtime.PrunePeers | kaonic-vpn/src/vpn/runtime.rs:280-288 | exactly the peers that are not allowed are dropped |
| Runtime.ExpirePeers | kaonic-vpn/src/vpn/runtime.rs:851-860 | exactly the overdue peers lose their routes, and the result says whether there was one |
| VpnRuns.RegistryAlwaysOk | kaonic-vpn/src/vpn/runtime.rs:196-205 | on every run our own hash has no slot, slots hold the derived tunnel IPs, and a closed allowlist covers them |
| VpnRuns.TableAlwaysCurrent | kaonic-vpn/src/vpn/runtime.rs:442-450 | in every state the table is the one of the current peers at the last rebuild time |
| VpnRuns.OwnersAllowed | kaonic-vpn/src/vpn/runtime.rs:537-543 | every owner in the table is registered, not ourselves, and allowed when the allowlist is closed |
| VpnRuns.PolicyInForce | kaonic-vpn/src/vpn/runtime.rs:255-266 | the policy in every state is the one of the last well-formed policy change, else of the start |
| VpnRuns.AnnounceExactly | kaonic-vpn/src/vpn/runtime.rs:537-574 | an announce leaves the peer on file with its routes for 45 s exactly if it is not us and that policy is open or lists it; a refused one changes nothing, and no other peer changes |
| VpnRuns.ControlExactly | kaonic-vpn/src/vpn/runtime.rs:926-936 | the same for a Hello or Routes frame of a registered sender |
| VpnRuns.RegisteredExactly | kaonic-vpn/src/vpn/runtime.rs:255-293 | who is registered, told by the events alone |
| VpnRuns.OtherEvent | kaonic-vpn/src/vpn/runtime.rs:849-864 | any other event keeps what is on file for a peer, except overdue routes at a tick and peers a closed policy drops |
| VpnRuns.PolicyExactly | kaonic-vpn/src/vpn/runtime.rs:255-293 | which peers a policy change leaves, and that they keep their routes |
| VpnRuns.ReachedByTunnelIp | kaonic-vpn/src/vpn/router.rs:81-83 | a registered peer with an unshared tunnel IP is reached by it |
| VpnRuns.AlwaysSourced | kaonic-vpn/src/vpn/runtime.rs:926-936 | routes on file come whole from one refresh and go at the first watchdog tick after their grace period |
| VpnRuns.RoutesAreFresh | kaonic-vpn/src/vpn/runtime.rs:42-46 | with the last tick at most 10 s ago a subnet is in the table only if its owner refreshed it less than 55 s ago |
| VpnRuns.RefreshStays | kaonic-vpn/src/vpn/runtime.rs:565-570 | the routes of a refresh stay on file until a new refresh, a removal or a tick after their grace period |
| VpnRuns.RefreshedRouteInTable | kaonic-vpn/src/vpn/router.rs:43-77 | an uncontested refreshed subnet is in the table after every rebuild within 45 s |
| VpnRuns.ForwardedToFreshOwner | kaonic-vpn/src/vpn/runtime.rs:784-787 | a packet goes to a peer only if that peer is allowed and lately announced the longest surviving subnet around the address |
| VpnRuns.KernelAgrees | kaonic-vpn/src/vpn/runtime.rs:471-502 | while no kernel command has failed, kernel routes and installed routes are equal in every state |
| VpnRuns.SyncNeverDropsWanted | kaonic-vpn/src/vpn/runtime.rs:483-500 | with failures: no sync deletes a route it wants or adds one it does not, and a completed one has all wanted routes in the kernel |
| VpnRuns.SyncFailsByFault | kaonic-vpn/src/vpn/runtime.rs:483-496 | a sync runs all its commands or stops right after one that the environment lets fail, and fails only then |
| VpnRuns.InstalledSplitsTable | kaonic-vpn/src/vpn/runtime.rs:467-501 | in every state whose last sync did not fail, installed and conflicted routes split the subnets of the table |
| VpnRuns.RulesAfterSync | kaonic-vpn/src/vpn/runtime.rs:493-496 | after the start or any handler whose sync completed with iptables, the chains are those of the local routes and the TCP rule is there |
| VpnRuns.RulesStay | kaonic-vpn/src/vpn/runtime.rs:457-506 | only a sync changes the chains |
| VpnRuns.InstalledInKernel | kaonic-vpn/src/vpn/runtime.rs:483-503 | in every state whose last sync did not fail all installed routes are in the kernel, whatever failed before |
| Instances.StrayRouteRun | kaonic-vpn/src/vpn/runtime.rs:487-492 | a run on which a half-failed sync leaves a kernel route that the flawless sync after it does not delete |
| VpnRuns.SyncedStateSeparates | kaonic-vpn/src/vpn/runtime.rs:467-501 | the separation of installed and local routes in the state after every handler whose sync completed |
| VpnRuns.InstalledSparesTunnelIp | kaonic-vpn/src/vpn/router.rs:51-55 | in every state of every run no installed subnet covers our own tunnel IP |
| VpnRuns.AdvertisedAreLocal | kaonic-vpn/src/vpn/runtime.rs:295-304 | in every state of every run the advertised routes are among the local ones |
| VpnRuns.LocalExactly | kaonic-vpn/src/vpn/runtime.rs:295-304 | in every state the local routes are the last discovered and the last advertised ones merged |
| VpnRuns.StepSeparatesExactly | kaonic-vpn/src/vpn/runtime.rs:487-501 | from a separated state, which handler calls keep installed and local routes apart, both directions |
| VpnRuns.SeparatedThroughoutExactly | kaonic-vpn/src/vpn/runtime.rs:457-531 | installed and local routes are apart throughout a run exactly when refreshes and failing advertise requests bring only routes apart from the installed ones |
| Instances.RefreshOverlaps | kaonic-vpn/src/vpn/runtime.rs:527-531 | a run from the start on which an announced and installed subnet is discovered locally |
| Instances.FailedAdvertiseOverlaps | kaonic-vpn/src/vpn/runtime.rs:295-304 | a run from the start on which an installed subnet is advertised and the sync fails, so that the installed list names a local route that is no longer in the kernel |
| VpnRuns.RulesAlwaysLocal | kaonic-vpn/src/vpn/runtime.rs:493-496 | in every state the chains are rules for the local routes of this or an earlier state: all of them while nothing failed, else the first few |
| VpnRuns.KernelUndoesExactly | kaonic-vpn/src/vpn/platform.rs:122-140 | in every state of every run, with or without failures, when POSTROUTING restores all that PREROUTING rewrote, both directions |
| Instances.HalfRulesRun | kaonic-vpn/src/vpn/platform.rs:128-140 | a run on which a failing command leaves a PREROUTING rule without its partner, and an address is not restored |
| VpnRuns.KernelAliasesUndo | kaonic-vpn/src/vpn/platform.rs:122-140 | while nothing failed, the POSTROUTING chain restores what the PREROUTING chain rewrote |
| EndToEnd.ForwardedToAnnouncer | kaonic-vpn/src/vpn/router.rs:80-90 | a packet into an accepted, uncontested route goes to its announcer unless the address is a tunnel IP or has a longer subnet |
| EndToEnd.LandsExactly | kaonic-vpn/src/vpn/platform.rs:122-140 | in every state of every run a packet lands in a LAN with that alias, host octet kept, exactly if some PREROUTING rule matches it |
| EndToEnd.AliasTraffic | kaonic-vpn/src/vpn/runtime.rs:515-526 | across two nodes: after a completed sync of the announced routes, a packet to the alias of a LAN goes to the announcer, reaches the host with its octet in a LAN with that alias, and the address is restored |
| EndToEnd.AnnouncedWithoutRule | kaonic-vpn/src/vpn/runtime.rs:598-615 | a run after which the exported routes hold an alias that no rule of the node rewrites |
| Driver.Drive | kaonic-vpn/src/vpn/runtime.rs:132-249 | the runtime object, started and given any sequence of events, ends in the last state of a run with just these events |
| Metrics.RateSampler.RefreshRates | kaonic-vpn/src/vpn/metrics.rs:74-95 | the fields after a call and the pair it returns, with saturating arithmetic |
| Metrics.RefreshedExactly | kaonic-vpn/src/vpn/metrics.rs:74-95 | first call, call inside a second, call after it: what is stored, and the rates as whole bits per second |
| Metrics.CachedRates | kaonic-vpn/src/vpn/metrics.rs:74-95 | after any samples on any clock the cached pair is that of the last closed window |
| Metrics.RatesConserve | kaonic-vpn/src/vpn/metrics.rs:83-93 | over any run the credited bits never exceed the bits counted, and without saturation fall short by less than one per second |
| Utf8.DecodeInverts | kaonic-atak-plugin/src/diagnostics.rs:79 | every string survives encoding and decoding |
| Utf8.DecodedIsEncoded | kaonic-atak-plugin/src/diagnostics.rs:79 | bytes decode to a text only if they are its encoding |
| Utf8.EncodedLayout | kaonic-atak-plugin/src/diagnostics.rs:79 | how many bytes a character takes and which bits each holds, as in section 3 of RFC 3629 |
| Utf8.TrimSkips | kaonic-atak-plugin/src/diagnostics.rs:80 | trimming removes exactly the whitespace around visible text |
| Utf8.SplitJoin | kaonic-atak-plugin/src/diagnostics.rs:80 | splitting a joined list of plain fields gives the fields back |
| Commands.ParseExactly | kaonic-atak-plugin/src/diagnostics.rs:75-99 | the parser accepts exactly the bytes of texts of constructible commands (padding, plus sign and leading zeros included) within 512 bytes, and returns the command written |
| Commands.ConstructibleExactly | kaonic-atak-plugin/src/diagnostics.rs:56-73 | the constructors accept ids of 1 to 96 ASCII letters, digits and hyphens, and 1 to 86400 seconds |
| Commands.RefusedEarly | kaonic-atak-plugin/src/diagnostics.rs:76-79 | when a payload is too large or no UTF-8 |
| Commands.RefusedExactly | kaonic-atak-plugin/src/diagnostics.rs:80-98 | which error the fields of a text give, in the order of the checks |
| Commands.ParseEncode | kaonic-atak-plugin/src/diagnostics.rs:101-109 | `parse(encode(c)) == c` for every command the constructors accept |
| Commands.ReencodeKeepsCommand | kaonic-atak-plugin/src/diagnostics.rs:75-109 | whatever text was accepted, the re-encoded command parses to the same command |
| Diagnostics.DiagnosticState.PruneLocked | kaonic-atak-plugin/src/diagnostics.rs:270-295 | the loops end an expired window and drop aged commands from the front |
| Diagnostics.DiagnosticState.EnforceSeenBoundLocked | kaonic-atak-plugin/src/diagnostics.rs:297-305 | the loop drops the oldest commands down to the bound |
| Diagnostics.DiagnosticState.ApplyOnceAt | kaonic-atak-plugin/src/diagnostics.rs:181-201 | applies and answers true exactly for an id that is not among the seen ones after pruning |
| Diagnostics.DiagnosticState.RecordRemoteAt | kaonic-atak-plugin/src/diagnostics.rs:209-234 | stores exactly while enabled, and keeps the last records up to the bound |
| Diagnostics.DiagnosticState.StatusAt | kaonic-atak-plugin/src/diagnostics.rs:240-253 | the reported status of the pruned state |
| Diagnostics.DiagnosticState.RecentAt | kaonic-atak-plugin/src/diagnostics.rs:264-268 | the newest records first, as many as asked for or there are |
| Diagnostics.SeenInvariant | kaonic-atak-plugin/src/diagnostics.rs:181-201 | always: deque without repeats, equal to the map's keys, at most 2048, the most recent accepted ids; with a monotone clock nothing is dropped early |
| Diagnostics.AppliedOnceExactly | kaonic-atak-plugin/src/diagnostics.rs:175-189 | a command is applied exactly when its id is not among the last 2048 accepted ones of at most 24 h |
| Diagnostics.RepeatsAreFarApart | kaonic-atak-plugin/src/diagnostics.rs:175-189 | one id is accepted twice only with 2048 other commands or 24 h in between |
| Diagnostics.ForgottenIsReapplied | kaonic-atak-plugin/src/diagnostics.rs:279-294 | a log on which one id is accepted twice, 24 h apart |
| Diagnostics.BufferIsSession | kaonic-atak-plugin/src/diagnostics.rs:203-234 | the buffer is the last records of the session while its window is open, and empty otherwise |
| Diagnostics.StoredExactly | kaonic-atak-plugin/src/diagnostics.rs:216-220 | a record is stored exactly while the window of the last accepted command is open |
| Diagnostics.PrunedBuffer | kaonic-atak-plugin/src/diagnostics.rs:264-278 | what a query sees at any later time |
| Diagnostics.SessionInsideWindow | kaonic-atak-plugin/src/diagnostics.rs:317-322 | every record of a session was observed before the window's end |
| Diagnostics.StoredByCommand | kaonic-atak-plugin/src/diagnostics.rs:190-220 | a record is stored exactly if the last accepted command is an enable of s seconds at t with t + s representable and not reached |
| Diagnostics.BufferByCommand | kaonic-atak-plugin/src/diagnostics.rs:240-268 | `recent` and `status` find the newest records since that enable, up to the bound, and nothing after a disable or the end |
| Diagnostics.StatusExactly | kaonic-atak-plugin/src/diagnostics.rs:243-252 | when status reports enabled, and the whole seconds it reports |
| Diagnostics.StatusByCommand | kaonic-atak-plugin/src/diagnostics.rs:243-252 | the reported seconds are the whole ones left of the last accepted enable |
| Diagnostics.StatusCanDenyRecording | kaonic-atak-plugin/src/diagnostics.rs:243-252 | a time at which records are stored and status says disabled |
| Mesh.RelayPayload | kaonic-atak-plugin/src/main.rs:807-825 | a received payload that parses to a new command is applied and re-encoded for the in-links; anything else is not sent |
| Mesh.OriginateCommand | kaonic-atak-plugin/src/main.rs:1005-1048 | a local command is applied, and sent exactly if there is a mesh to send it to |
| Mesh.FloodAlways | kaonic-atak-plugin/src/main.rs:807-821 | as long as no node forgets, copies handled plus a potential equal the number of links after every step, so each handled copy brings the flood closer to its end |
| Mesh.FloodBounded | kaonic-atak-plugin/src/main.rs:807-821 | as long as no node forgets, no run handles more copies than there are links |
| Mesh.AppliesOnceAndReachable | kaonic-atak-plugin/src/main.rs:809-819 | as long as no node forgets, each node applies and forwards a command at most once, forwards exactly if it applied, and is reachable from the origin |
| Mesh.AppliersReachable | kaonic-atak-plugin/src/main.rs:809-819 | always: a node forwards the command as often as it applies it, and only reachable nodes do |
| Mesh.AppliedOnceThroughoutExactly | kaonic-atak-plugin/src/main.rs:809-819 | in every flood: each node applies the command at most once exactly if no copy reaches a node that has applied and forgotten it |
| Mesh.ForgetfulFlood | kaonic-atak-plugin/src/main.rs:809-819 | a flood over two nodes on which one of them applies the command twice |
| Mesh.CopiesAreTheCommand | kaonic-atak-plugin/src/main.rs:818-819 | every copy under way parses to the origin's command |
| Mesh.FloodComplete | kaonic-atak-plugin/src/main.rs:818-819 | with lossless delivery, once no copy is under way exactly the reachable nodes have applied the command, whatever was forgotten on the way |

## Left out

- Routing.Resolve: the table is a value, as the source's shared snapshot is; the lock around it is not modelled.
- VpnRuns.RulesAfterSync: whether iptables is there does not change in the middle of a sync, only between handlers.
- Runtime.VpnRuntime.SyncRoutes: the status code and the error texts are reduced to whether the last sync stopped early.
- Runtime.VpnRuntime.HandlePeerAnnounce: the last-seen time, the peer's last error and the stored description are not modelled.
- Runtime.VpnRuntime.HandleControl: the last-seen time is not modelled.
- Runtime.VpnRuntime.ReplacePeerPolicy: parsing the hex form of the hashes is an input; the link cache entries it removes are not modelled.
- Platform.Kernel.SyncRouteTranslations: creating chains and jumps and the first flush count as one command; a command that fails is taken not to have changed its chain.
- Translations.MergeRoutes: the order of the source's tree set, that of the address library, is left open; only the order of colliding rules depends on it.
- Translations.AliasRoundTrip: the kernel tracks connections and reverses replies itself; here the two chains are applied to an address without any such state.
- Metrics.RatesConserve: the lower bound needs counters that do not wrap and windows that do not saturate; without that only the upper bound is claimed.
- Diagnostics.BufferIsSession: for a clock that goes backwards only `SeenInvariant` is claimed.
- LinkLifecycle.HeadCanGoOn: the transport's mutex is also taken for other peers, traffic and announces; those holders only delay the tasks of a peer and are not in its queue.
- EndToEnd.AliasTraffic: announce messages arrive as sent; connection tracking and the kernel's own forwarding are not modelled.
- Mesh.FloodComplete: the set of links does not change during a flood.
- Handlers run without interruption and read the clock once; races between threads inside one handler are not modelled. The clock does not go backwards.
- The route of the tunnel network itself, which the address configuration adds to the kernel, is not among the tracked routes.
- Seconds and route expiry times of the route state are unbounded; the link state uses 64-bit saturating seconds as the source does.
- A link request whose peer was removed from the registry has no peer fields to update and does not appear in the life cycle.
- Routes are kept as blocks, not as the strings the source keeps; the address library's own `contains` and ordering are modelled from their meaning.
- Coordinates of diagnostic records are real numbers.
- The Reticulum transport, the radio, the TUN device and packet slicing, the message encoding of announces and control frames, CoT parsing, location state and the gateway are not part of this model.
