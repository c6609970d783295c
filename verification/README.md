# Magnetite: verified model

Magnetite is a self-hosted suite of DNS, DHCP, mail and Active Directory services with a control
plane that elects a leader and fails servers over. This project models the logic in it that has to be right
under concurrency, failure and repetition, and proves what that logic promises. `dafny verify dfyconfig.toml`
checks all of it.

| module | models |
|---|---|
| `LeaderLease` | leader election of the control-plane centres: every interleaving of bid, read-back, publish, release and the passing of time |
| `Failover`, `FailoverRun`, `FailoverRounds` | the failover decision and its rounds; the store, the polling and whole runs of the control plane; rounds of all clusters together |
| `Membership` | multi-master group membership: stamped links, merge, edits and deliveries between any controllers |
| `RidAllocation`, `RidMaster` | RID blocks reserved from one counter and spent by front-ends; the in-memory RID master |
| `Ring`, `Topology` | the replication ring, its reroute around dead controllers, and the manager's passes |
| `DnsNames`, `DnsZone`, `DnsProperties`, `DnsReplay` | the zone store: CNAME coexistence, address repointing, journal and replay by a secondary |
| `DcLocator` | locator records of domain controllers in a shared zone, and the zone they find or create |
| `Feeds`, `FeedCursors`, `MailFeed`, `LeaseReplication` | compound-cursor feeds of leases and mail, and the lease sync they complete |
| `EnvExpand`, `DnsCache`, `Ber`, `Cldap` | environment references in the configuration, the DNS answer cache, the BER codec and its messages |
| `Ordering`, `Text` | string order; trimming, splitting and joining |

Objects the program changes in place are classes; each method is tied to a function of the old state, and the
properties are proved of those functions, of single steps, and of all runs. Clocks, message outcomes, health
reports, iteration orders of hash maps and storage orders of tables are parameters or free choices, so every
statement holds for all of them. Timestamps are numbers, or their text where the program compares text.

## What the proofs brought to light

The model does what the code does. Where the documentation or an expectation differs, a lemma gives the input
and another the exact condition.

- A name with white space in front of its trailing dot is normalised differently the second time
  (`DnsNames.NormalizeIdempotentIff`). The record editor refuses such names in zones whose own names are settled
  (`DnsReplay.SettledEditIsJournaledIff`), but nothing checks a repoint: at `"a . ."` it puts an address beside a
  CNAME (`DnsProperties.RepointNeverLosesAddress`, `DnsProperties.SpacedRepointSlipsPast`), and at `"a ."` every
  repetition adds one more record (`DnsProperties.RepointTwiceIff`, `DnsProperties.SpacedRepointPilesUp`). A create
  or an update called directly passes the CNAME guard in the same way (`DnsProperties.SpacedNameSlipsPast`,
  `DnsProperties.SpacedUpdateSlipsPast`).
- A record update checks and guards the zone the caller names but changes the row with that id wherever it is
  (`DnsProperties.UpdateKeepsGoodIff`, `DnsProperties.WrongZoneSlipsPast`); its journal entry is then false
  (`DnsReplay.EditIsJournaledIff`, `DnsReplay.WrongZoneIsJournaledFalse`), as it is for an id that does not exist
  (`DnsReplay.PhantomAdd`).
- A repoint that finds its address already there returns the "zone not served" answer and leaves a disabled
  record disabled (`DnsProperties.RepointNeverLosesAddress`, `DnsProperties.DisabledStays`,
  crates/magnetite-db/src/dns.rs:468).
- A secondary looks each removed record up in one listing, so one of two equal records survives
  (`DnsReplay.RemovalIsExactIff`, `DnsReplay.DuplicateSurvivesReplay`).
- A centre that shuts down releases its lease while it is still flagged (`LeaderLease.TimelyStepIff`,
  `LeaderLease.ReleaseWithoutStopIsUnsafe`, crates/magnetite-center/src/main.rs:104-109).
- A server without a role is documented as never demoted (crates/magnetite-center/src/failover.rs:30), but the
  split-brain guard does not look at the role (`Failover.UnsetIsDemotedIff`, `Failover.UnsetIsDemoted`).
- Writing a group anew resets link versions and drops tombstones (`Membership.RecreationKeepsVersionsIff`,
  `Membership.RecreationForgets`). A member listed twice, which takes a direct call, hides its own edits
  (`Membership.EditSetsLinkIff`, `Membership.RemovalIsHidden`).
- The RID seed is honoured only before the counter exists (`RidAllocation.SeedIsOnlyTheFirst`,
  `RidAllocation.LateSeedIsIgnored`), and the RID master's last pools come short or empty
  (`RidMaster.PoolIsFullIff`, `RidMaster.LastPools`).
- A domain with outer white space gets a zone under its trimmed name, which is not found again: the next seeding is
  refused and a withdrawal removes nothing (`DcLocator.ZoneIsRefusedIff`, `DcLocator.SecondSeeding`,
  `DcLocator.SpacedDomainIsLost`, `DcLocator.SpacedDomainIsRefused`). A label that starts with white space gains one
  more host record at every seeding (`DcLocator.SeedAgain`, `DcLocator.SpacedLabelPilesUp`).
- A controller named like the catalog alias is counted twice on withdrawal (`DcLocator.CountIsWrongIff`,
  `DcLocator.AliasIsCountedTwice`). That takes a direct call: a label cut from a service name is counted right
  (`DcLocator.CutLabelIsCountedRight`).
- A lease whose pool id holds a bar is served again when it ends a page (`FeedCursors.LeaseFeedServesAllIff`), in
  some tables for ever (`FeedCursors.BarInPoolRepeats`); nothing is ever skipped (`FeedCursors.NothingIsSkipped`).
- The mail streams are documented as never skipping one another's items (crates/magnetite-db/src/mail.rs:1276-1278).
  A bar in the id of a message or a deletion makes them (`MailFeed.PartsAdvanceIff`, `MailFeed.MailFeedServesAllIff`,
  `MailFeed.BarSkipsDeletion`); the program itself draws ids without one.
- `${VAR:-default}` uses the default for an unset name only, not for an empty value
  (`EnvExpand.DefaultIsForUnsetNames`, `EnvExpand.EmptyValueIsKept`, crates/magnetite-core/src/config.rs:668).
- A full DNS cache evicts an entry even when the key being stored is already held
  (`DnsCache.PutLosesIff`, `DnsCache.FullCacheForgets`).
- Message ids from -2^23 to -1 are not encoded minimally (`Ber.Integer`, `Ber.MinusOneIsLong`). Negative ids in
  fewer than four octets and ids beyond 31 bits are misread (`Cldap.ReadIdIsIntegerIff`,
  `Cldap.ShortNegativeIsMisread`, `Cldap.LargeIdWraps`); section 4.1.1 of RFC 4511 has neither.

## Model

| member | source | states |
|---|---|---|
| `LeaderLease.LeaseRow.TryAcquireLeadership` | crates/magnetite-center/src/store.rs:563-596 | undisturbed, the caller leads afterwards exactly when the row was its own or had expired; the row then runs for the whole lease in a term that grows exactly on a change of holder |
| `LeaderLease.LeaseRow.CurrentLeader` | crates/magnetite-center/src/store.rs:599-619 | reports the row, and leadership only to a named holder |
| `LeaderLease.LeaseRow.ReleaseLeadership` | crates/magnetite-center/src/store.rs:623-632 | clears the row for its holder and nobody else |
| `LeaderLease.RunKeepsOwnership` | crates/magnetite-center/src/store.rs:563-632 | in every reachable state of every interleaving the row names each centre that is still inside the lease it last wrote |
| `LeaderLease.AtMostOneLeader` | crates/magnetite-center/src/leader.rs:20-50 | no two centres are flagged at once in any state of any run in which flagged centres renew in time and a releasing centre has stopped |
| `LeaderLease.TimelyStepIff` | crates/magnetite-center/src/leader.rs:20-50 | a step keeps flagged centres inside their leases exactly when it does not wait past one, renews before the lease it writes ends, publishes a win inside the lease, and releases only without the flag |
| `LeaderLease.RunIsTimelyIff` | crates/magnetite-center/src/leader.rs:20-50 | over whole runs: all states are so exactly when all steps are |
| `LeaderLease.DisciplinedRunHasOneLeader` | crates/magnetite-center/src/leader.rs:20-50 | so a run of such steps never has two leaders |
| `LeaderLease.ReleaseWithoutStopIsUnsafe` | crates/magnetite-center/src/main.rs:104-109 | the second assumption is needed: from every reachable state a release by a centre that keeps its flag leads to two flagged leaders |
| `LeaderLease.HandoverNeedsExpiryOrRelease` | crates/magnetite-center/src/store.rs:563-632 | in one step the row passes on only after expiry or on a cleared row, and is cleared only by its holder |
| `LeaderLease.TermsIdentifyHolders` | crates/magnetite-center/src/store.rs:563-596 | along a run terms never fall, and no term is held by two centres |
| `LeaderLease.HolderKeepsLeaseUntilExpiryOrRelease` | crates/magnetite-center/src/store.rs:563-632 | between two states with different holders lies a release by the first or an instant past its expiry |
| `LeaderLease.RefusedCentreReadsFalse` | crates/magnetite-center/src/store.rs:563-619 | a centre whose UPDATE was refused reads back that it does not lead, however others moved in between |
| `LeaderLease.LeaseNeverOutlivesTtl` | crates/magnetite-center/src/store.rs:563-596 | a lease never ends later than one lease time from now |
| `LeaderLease.StandbyTakesOverWithinOneLease` | crates/magnetite-center/src/leader.rs:20-50 | from every reachable state, after one idle lease time, any idle centre that bids is flagged |
| `Failover.Evaluate` | crates/magnetite-center/src/failover.rs:112-202 | the step-by-step evaluation computes the declarative decision, through its two sweeps |
| `Failover.CommandsIssued` | crates/magnetite-center/src/failover.rs:133-199 | a command is issued for exactly these reasons: the one promotion due, and a demotion of each healthy server that acts as primary without being the active one |
| `Failover.PromotionDue` | crates/magnetite-center/src/failover.rs:133-165 | a standby is promoted exactly when the effective primary is registered, down and over the threshold while an eligible standby exists, and it is the least one |
| `Failover.DecisionIsConsistent` | crates/magnetite-center/src/failover.rs:112-202 | no decision promotes and demotes, or fences and unfences, one server |
| `Failover.HealthyPrimaryStays` | crates/magnetite-center/src/failover.rs:133-199 | no failback: a registered healthy primary keeps its place |
| `Failover.OneActingPrimary` | crates/magnetite-center/src/failover.rs:112-202 | after a round whose commands succeed only the active server acts as primary among the healthy ones, and none of them but it stays fenced |
| `Failover.QuietExactlyWhenSettled` | crates/magnetite-center/src/failover.rs:98-105 | an evaluation is empty exactly in a settled cluster |
| `Failover.AtMostTwoBusyRounds` | crates/magnetite-center/src/failover.rs:112-202 | under fixed health at most two rounds do anything; the second exactly when standbys had to be unfenced first; then all is idle |
| `Failover.FailedDemotionIsReissued` | crates/magnetite-center/src/failover.rs:169-199 | a demotion that failed is issued again exactly unless its server became the active primary |
| `Failover.UnsetIsDemotedIff` | crates/magnetite-center/src/failover.rs:183-199 | a server without a role is demoted exactly when it is healthy and acts as primary without being the active one |
| `Failover.UnsetIsDemoted` | crates/magnetite-center/src/failover.rs:30-32 | such a server, beside a healthy active primary |
| `FailoverRun.CenterDb.RunFailover` | crates/magnetite-center/src/poll.rs:55-111 | one pass over all clusters, judged on the snapshot taken before it, persists the verdicts in turn |
| `FailoverRun.CenterDb.RecordPoll` | crates/magnetite-center/src/store.rs:456-486 | the UPDATE records a poll outcome on its server alone: success resets the count and takes the reported role, failure counts |
| `FailoverRun.TickAt` | crates/magnetite-center/src/poll.rs:55-111 | clusters do not interfere: each cluster row follows its own verdict, each server row that of its own cluster |
| `FailoverRun.DecisionIsLocal` | crates/magnetite-center/src/store.rs:748-781 | a cluster fences and unfences only its own registered servers |
| `FailoverRun.RunKeepsCounts` | crates/magnetite-center/src/store.rs:456-486 | over every run of polls, passes and operator changes the stored failure count is the number of trailing failed polls |
| `FailoverRun.FailoverIsJustified` | crates/magnetite-center/src/poll.rs:55-111 | whenever a pass moves the recorded primary, the old one is registered and its last `threshold` polls all failed, the new one is a healthy unfenced standby of the cluster, and it confirmed |
| `FailoverRun.FailedPromotionChangesNothing` | crates/magnetite-center/src/poll.rs:67-105 | after a failed promotion the cluster row and the fenced flags of its servers are as before |
| `FailoverRounds.RoundIsEachClusters` | crates/magnetite-center/src/poll.rs:55-111 | a round of the whole control plane, pass and following polls, is a round of every cluster on its own |
| `FailoverRounds.EverythingSettles` | crates/magnetite-center/src/poll.rs:55-111 | under fixed health with every command succeeding no cluster has anything to do after two rounds, and the store no longer changes |
| `FailoverRounds.PassIsConsistent` | crates/magnetite-center/src/poll.rs:55-111 | no pass promotes and demotes one server, on behalf of one cluster or of two |
| `Membership.GroupStore.ApplyReplicatedGroup` | crates/magnetite-db/src/ad.rs:428-507 | whatever order the stored links are in, they become the winners of stored and incoming, sorted; the object stamp does not regress |
| `Membership.GroupStore.SetGroupMemberLocal` | crates/magnetite-db/src/ad.rs:517-580 | a local edit replaces the first row of its member or adds one, and sorts; where the member has one row at most it writes that link under the next version and leaves all others and the object stamp alone; an unknown group is an error |
| `Membership.GroupStore.UpsertGroup` | crates/magnetite-db/src/ad.rs:384-420 | stores one version-1 row per listed member, in the order of the list, under fresh update numbers |
| `Membership.EditSetsLinkIff` | crates/magnetite-db/src/ad.rs:537-562 | for any stored rows, an edit sets its link and no other exactly when the member has one row at most; otherwise no link changes |
| `Membership.RemovalIsHidden` | crates/magnetite-db/src/ad.rs:384-562 | such rows: a member listed twice stays through its removal |
| `Membership.SortKeepsLinks` | crates/magnetite-db/src/ad.rs:561-562 | the stable sort permutes the rows and changes no link, duplicates included |
| `Membership.RecreatedAreStored` | crates/magnetite-db/src/ad.rs:384-420 | the links of the rows a re-creation stores |
| `Membership.WinsTotal` | crates/magnetite-db/src/replication.rs:53-63 | conflict resolution is decisive between different stamps |
| `Membership.MergeKeepsWinners` | crates/magnetite-db/src/ad.rs:428-507 | a merge holds the winner of everything seen on either side |
| `Membership.SortedTableIsUnique` | crates/magnetite-db/src/ad.rs:428-507 | the stored table is determined by its links |
| `Membership.WritesNeverShareAStamp` | crates/magnetite-db/src/ad.rs:517-580 | in every run of edits and deliveries between any controllers no two different writes to a link carry one stamp |
| `Membership.LinksOnlyMoveForward` | crates/magnetite-db/src/ad.rs:428-580 | a stored link is only replaced by one that wins: versions never fall and a lost add never resurrects a member |
| `Membership.SameSeenSameLinks` | crates/magnetite-db/src/ad.rs:428-507 | controllers that have seen the same links hold the same links, whatever the order and the repetitions |
| `Membership.FullExchangeConverges` | crates/magnetite-db/src/ad.rs:428-507 | once edits stop, a full exchange both ways, at once or in turn, leaves identical links |
| `Membership.RecreationKeepsVersionsIff` | crates/magnetite-db/src/ad.rs:384-420 | writing a group anew keeps every version exactly when each stored link is listed and was never edited |
| `Membership.RecreationForgets` | crates/magnetite-db/src/ad.rs:384-420 | a removal that is forgotten by a group written without the member, and that overrules one written with it |
| `RidAllocation.DbRidAllocator.Allocate` | crates/magnetite-addc/src/lib.rs:119-141 | mints the first unspent RID, or none; a refill is wanted exactly at the watermark |
| `RidAllocation.DbRidAllocator.AllocatePool` | crates/magnetite-addc/src/lib.rs:143-165 | grants the start of the first range that fits and discards the smaller ones before it |
| `RidAllocation.DbRidAllocator.Refill` | crates/magnetite-addc/src/lib.rs:198-246 | queues a reserved block behind the others |
| `RidAllocation.DroppedAreSmaller` | crates/magnetite-addc/src/lib.rs:143-165 | a discarded range is smaller than the grant, and every other range survives |
| `RidAllocation.TakeSpends` | crates/magnetite-addc/src/lib.rs:119-165 | what is handed out was held, is least, and is gone; a single mint loses nothing else |
| `RidAllocation.StepIsSound` | crates/magnetite-addc/src/lib.rs:119-246 | every mint, grant, refill, failed refill, restart and direct reservation hands out only RIDs nobody had before |
| `RidAllocation.NoRidTwice` | crates/magnetite-db/src/ad.rs:75-91 | over every run by any number of front-ends no RID is handed out twice |
| `RidAllocation.ReservedIsMintedOrHeld` | crates/magnetite-addc/src/lib.rs:119-246 | while a front-end runs, every single RID reserved for it is handed out or held, never both |
| `RidAllocation.SinglesIncrease` | crates/magnetite-addc/src/lib.rs:119-141 | a front-end's single RIDs strictly increase, across restarts too |
| `RidAllocation.SeedIsOnlyTheFirst` | crates/magnetite-addc/src/lib.rs:171-182 | the next block lies above the seed exactly when there is no counter yet or the counter has passed it |
| `RidAllocation.LateSeedIsIgnored` | crates/magnetite-addc/src/lib.rs:167-182 | a run: a front-end that restarts with a seed of 5000 mints 1356 |
| `RidMaster.RidAllocator.Allocate` | crates/magnetite-addc/src/fsmo.rs:185-196 | hands out the range at the watermark and records it |
| `RidMaster.PoolsPartition` | crates/magnetite-addc/src/fsmo.rs:140-196 | after any allocations each RID below the watermark, and no other, is in exactly one pool |
| `RidMaster.RecordsAreExact` | crates/magnetite-addc/src/fsmo.rs:199-201 | a controller's record is the pools it was given, in order |
| `RidMaster.ControllersNeverShare` | crates/magnetite-addc/src/fsmo.rs:152-201 | no RID is in two controllers' records, saturation included |
| `RidMaster.PoolIsFullIff` | crates/magnetite-addc/src/fsmo.rs:183-196 | a pool holds all it says exactly while the watermark has room, and any RID at all exactly below the maximum |
| `RidMaster.LastPools` | crates/magnetite-addc/src/fsmo.rs:183-196 | the last two pools: one RID that says 500, and none |
| `Ring.RingInboundPartners` | crates/magnetite-addc/src/topology.rs:113-131 | the index arithmetic gives the ring neighbours of the live, sorted, deduplicated ids; none for an unknown or dead self |
| `Ring.LiveIds` | crates/magnetite-addc/src/topology.rs:118-120 | filter, sort and dedup give the strictly sorted ids of the live controllers |
| `Ring.PartnersAgree` | crates/magnetite-addc/src/topology.rs:113-131 | partnership is symmetric and joins only other live listed controllers |
| `Ring.PartnerCount` | crates/magnetite-addc/src/topology.rs:113-131 | every live controller has min(2, n - 1) distinct partners |
| `Ring.OrderDoesNotMatter` | crates/magnetite-addc/src/topology.rs:113-131 | every node computes the same ring from any order and repetition of the list |
| `Ring.RingConnects` | crates/magnetite-addc/src/topology.rs:113-131 | any two of n live controllers are at most n / 2 hops apart |
| `Ring.NeighboursAreNearestLive` | crates/magnetite-addc/src/topology.rs:113-131 | a live node's neighbours are the nearest live ones of the static ring, all the way round |
| `Ring.RerouteIsMinimal` | crates/magnetite-addc/src/topology.rs:174-188 | static neighbours are always kept, nothing is added while both live, and there are never more than four agents |
| `Ring.SameWhenAlive` | crates/magnetite-addc/src/topology.rs:174-188 | with nobody dead the desired partners are the static ones |
| `Topology.DeadPeersMonotone` | crates/magnetite-addc/src/topology.rs:152-166 | a higher threshold never declares more controllers dead; one without failures never is |
| `Topology.TopologyManager.Pass` | crates/magnetite-addc/src/topology.rs:216-286 | after a pass the agents are exactly the desired partners |
| `Topology.TopologyManager.UpdateLocators` | crates/magnetite-addc/src/topology.rs:226-252 | each controller is withdrawn on death and re-seeded on recovery, once, when the DNS call succeeds |
| `Topology.WithdrawalsAlternate` | crates/magnetite-addc/src/topology.rs:226-252 | over every run a controller's withdrawals and re-seeds strictly alternate, and it counts as withdrawn exactly in between |
| `Topology.CleanPassMatchesDeaths` | crates/magnetite-addc/src/topology.rs:226-252 | a pass without DNS failures leaves a controller withdrawn exactly when it is dead, if it can be located, and as it was, if it cannot |
| `Topology.UnlocatableStays` | crates/magnetite-addc/src/topology.rs:226-252 | over every run a controller that cannot be located is never withdrawn |
| `DnsNames.NormalizeIdempotentIff` | crates/magnetite-core/src/domains/dns/validate.rs:26-28 | normalising twice changes nothing exactly for names without white space in front of trailing dots |
| `DnsNames.WithinSettled` | crates/magnetite-core/src/domains/dns/validate.rs:125-131 | in a zone whose own name is settled, every name the editor accepts is |
| `DnsZone.DnsDb.CreateZone` | crates/magnetite-db/src/dns.rs:196-232 | creates a zone under the normalised name, in its place in the listing, unless that name is taken |
| `DnsZone.DnsDb.CreateRecord` | crates/magnetite-db/src/dns.rs:702-722 | creates one row under the normalised name unless the guard refuses |
| `DnsZone.DnsDb.UpdateRecord` | crates/magnetite-db/src/dns.rs:725-753 | changes the row with this id unless the guard refuses |
| `DnsZone.DnsDb.RepointAddressRecord` | crates/magnetite-db/src/dns.rs:471-532 | replaces the address records of the family at the name, bumps the serial and journals, or does nothing when the address is there |
| `DnsZone.DnsDb.ApplyZoneDelta` | crates/magnetite-db/src/dns.rs:427-458 | removes the first match of each removed record, then creates the added ones; fails exactly when one is refused |
| `DnsProperties.CreateKeepsCoexistenceIff` | crates/magnetite-db/src/dns.rs:675-722 | an accepted create keeps CNAMEs alone at their names exactly when the guard also passes on the stored name |
| `DnsProperties.CreateKeepsGoodIff` | crates/magnetite-db/src/dns.rs:675-722 | an accepted create keeps a good store good exactly for names without white space before trailing dots |
| `DnsProperties.SpacedNameSlipsPast` | crates/magnetite-db/src/dns.rs:675-722 | the input for which it fails: white space before a trailing dot |
| `DnsProperties.UpdateKeepsCoexistenceIff` | crates/magnetite-db/src/dns.rs:725-753 | an accepted update keeps coexistence exactly when the guard passes on the stored name in the zone the row is stored in |
| `DnsProperties.UpdateKeepsGoodIff` | crates/magnetite-db/src/dns.rs:725-753 | it keeps a good store good exactly for an ordinary name that passes the guard in the row's own zone |
| `DnsProperties.SpacedUpdateSlipsPast` | crates/magnetite-db/src/dns.rs:725-753 | one input for which it fails, at a direct call: a name that is stored differently |
| `DnsProperties.WrongZoneSlipsPast` | crates/magnetite-db/src/dns.rs:725-753 | the other, through the editor: a caller who names another zone the name is also within |
| `DnsProperties.DeltaKeepsGoodIff` | crates/magnetite-db/src/dns.rs:427-458 | a delta keeps a good store good exactly unless it adds, and has accepted, a record under a name with white space before trailing dots |
| `DnsProperties.RepointLosesExactlyWhen` | crates/magnetite-db/src/dns.rs:471-532 | a repoint loses an address exactly when it replaces something while a CNAME sits where the new record is to be stored |
| `DnsProperties.RepointNeverLosesAddress` | crates/magnetite-db/src/dns.rs:471-532 | in a good store it is refused with nothing changed or succeeds; success leaves one record of the family with this address exactly for ordinary names, enabled unless it was there before, disabled |
| `DnsProperties.RepointTwiceIff` | crates/magnetite-db/src/dns.rs:471-532 | repeating a successful repoint changes no record, serial or journal exactly for ordinary names; under the others each repetition adds a record and an entry |
| `DnsProperties.SpacedRepointPilesUp` | crates/magnetite-db/src/dns.rs:471-532 | such a name, in every good store |
| `DnsProperties.SpacedRepointSlipsPast` | crates/magnetite-db/src/dns.rs:471-532 | a name at which a repoint breaks coexistence: `"a . ."` beside the CNAME `"a"` |
| `DnsProperties.DisabledStays` | crates/magnetite-db/src/dns.rs:499-512 | a record that is there, disabled, stays disabled |
| `DnsReplay.EditIsJournaledIff` | crates/magnetite-app/src/server_fns/dns.rs:217-309 | an edit of any kind keeps every zone's journal true exactly when it is refused (unknown zone, name outside it, CNAME guard), or has an ordinary name, no duplicate and, for a change, a known row of the zone named |
| `DnsReplay.SettledEditIsJournaledIff` | crates/magnetite-app/src/server_fns/dns.rs:217-262 | where zone names are settled the condition on the name goes away |
| `DnsReplay.WrongZoneIsJournaledFalse` | crates/magnetite-app/src/server_fns/dns.rs:231-262 | a change of an upper zone's row in the name of the zone below, which passes every check |
| `DnsReplay.PhantomAdd` | crates/magnetite-app/src/server_fns/dns.rs:231-262 | changing a row that does not exist journals a record that is not there |
| `DnsReplay.DeltaIsExactIff` | crates/magnetite-db/src/dns.rs:427-458 | applying a delta whose removed records are there accepts everything and leaves a good copy without duplicates exactly when the added records fit in turn; the copy then holds exactly the new records |
| `DnsReplay.JournalBridges` | crates/magnetite-db/src/dns.rs:794-814 | since any earlier serial the journal holds one entry per serial up to the current one, in order |
| `DnsReplay.ReplayIsExact` | crates/magnetite-db/src/dns.rs:427-458 | a copy at any earlier serial, brought forward by the journal since then, holds exactly the current records, with no entry refused on the way |
| `DnsReplay.RemovalIsExactIff` | crates/magnetite-db/src/dns.rs:427-458 | a removal leaves no matching row exactly when each removed record matches at most one |
| `DnsReplay.DuplicateSurvivesReplay` | crates/magnetite-db/src/dns.rs:427-458 | of two rows with one name, type and data, both listed as removed, one survives |
| `DcLocator.SeedDcLocator` | crates/magnetite-db/src/addc_dns.rs:100-151 | finds or creates the zone of the domain, then creates the locator records whose key is not there yet, stopping at the first refusal |
| `DcLocator.WithdrawDcLocator` | crates/magnetite-db/src/addc_dns.rs:163-191 | removes every row of the domain's zone with a locator key and counts each record's matches; without a zone it removes nothing |
| `DcLocator.ZoneIsRefusedIff` | crates/magnetite-db/src/addc_dns.rs:107-123 | the zone is refused exactly for a domain with outer white space that is not found as written while its trimmed name is taken |
| `DcLocator.SecondSeeding` | crates/magnetite-db/src/addc_dns.rs:91-191 | after a seeding that succeeded the next is refused exactly for a domain with outer white space whose zone the first created, and a withdrawal then finds nothing; otherwise it succeeds in the same zone, changes nothing exactly when every record is found there, and without outer white space in the domain adds exactly one host record for a label that starts with some |
| `DcLocator.SpacedDomainIsLost` | crates/magnetite-db/src/addc_dns.rs:91-191 | such a domain in an empty store: seeded, refused, not withdrawn |
| `DcLocator.SpacedDomainIsRefused` | crates/magnetite-db/src/addc_dns.rs:107-123 | and beside the ordinary zone: refused at once |
| `DcLocator.SpacedLabelPilesUp` | crates/magnetite-db/src/addc_dns.rs:125-151 | such a label |
| `DcLocator.SeedThenWithdraw` | crates/magnetite-db/src/addc_dns.rs:91-191 | a plain controller always has a zone, and withdrawing it restores the rows exactly when none of its keys was there before |
| `DcLocator.SeedAddsKeys` | crates/magnetite-db/src/addc_dns.rs:100-146 | seeding succeeds exactly when no missing record meets a CNAME; it then adds its keys and changes no row |
| `DcLocator.SeedIsIdempotent` | crates/magnetite-db/src/addc_dns.rs:91-146 | seeding again changes nothing |
| `DcLocator.SeedsDoNotBlock` | crates/magnetite-db/src/addc_dns.rs:91-146 | whether a seeding succeeds does not depend on one that succeeded before |
| `DcLocator.SeedOrderDoesNotMatter` | crates/magnetite-db/src/addc_dns.rs:91-146 | one order of two seedings succeeds exactly when the other does, and then both leave the same keys |
| `DcLocator.FoundAgainIff` | crates/magnetite-db/src/addc_dns.rs:73-88 | within a zone, a created record is found again exactly when its name has no outer white space |
| `DcLocator.SeedAgain` | crates/magnetite-db/src/addc_dns.rs:125-151 | within a zone, under a domain without outer white space, a second seeding changes nothing or, for a label that starts with white space, adds exactly one host record |
| `DcLocator.SeedSucceedsAgain` | crates/magnetite-db/src/addc_dns.rs:125-151 | within a zone, any records that were seeded are seeded again with success, without a change exactly when every key is found by then |
| `DcLocator.LocatorsArePlainIff` | crates/magnetite-db/src/addc_dns.rs:48-71 | which controllers have plain records: domain without outer white space, label not starting with any |
| `DcLocator.WithdrawRestoresIff` | crates/magnetite-db/src/addc_dns.rs:148-191 | withdrawing what was seeded restores the rows exactly when none of its keys was there before |
| `DcLocator.ControllersAreSeparateIff` | crates/magnetite-db/src/addc_dns.rs:48-88 | two controllers of a domain share no key exactly when hosts and addresses both differ |
| `DcLocator.WithdrawLeavesOthers` | crates/magnetite-db/src/addc_dns.rs:148-191 | a withdrawal leaves rows of other zones and of separate controllers, and removes exactly its keys |
| `DcLocator.HostsDifferIff` | crates/magnetite-db/src/addc_dns.rs:48-50 | hosts compare equal exactly when labels do, ignoring case and, in a domain of dots, trailing dots |
| `DcLocator.CountIsRemovedIff` | crates/magnetite-db/src/addc_dns.rs:156-191 | for any records, the reported count is the number of rows removed exactly unless one repeats a key that has rows |
| `DcLocator.CountIsWrongIff` | crates/magnetite-db/src/addc_dns.rs:156-191 | for a controller, it is wrong exactly when its label is `gc._msdcs`, ignoring case, and rows have that alias's address key, or label and domain are dots and rows have the apex's |
| `DcLocator.AliasIsCountedTwice` | crates/magnetite-db/src/addc_dns.rs:156-191 | one row removed, two counted |
| `DcLocator.CutLabelIsCountedRight` | crates/magnetite-addc/src/topology.rs:70-81 | a label without a dot, as cut from a service name, is always counted right |
| `Feeds.ThreeLevels` | crates/magnetite-db/src/dhcp.rs:460-463 | the three-level WHERE clause is the order of the three columns |
| `Feeds.PagesServe` | crates/magnetite-db/src/dhcp.rs:445-485 | after i queries the first i * limit rows past the start have been served, in key order and once each |
| `Feeds.EndOfFeed` | crates/magnetite-db/src/dhcp.rs:445-485 | a page is empty exactly when everything was served, and then the cursor stays |
| `Text.PrintedReadsBackIff` | crates/magnetite-db/src/mail.rs:11-16 | printed parts read back exactly when only the last holds the separator |
| `FeedCursors.ReadBackIsNoLater` | crates/magnetite-db/src/dhcp.rs:452-455 | a lease key reads back as itself or, cut at its first bar, strictly smaller |
| `FeedCursors.LeaseFeedServesAllIff` | crates/magnetite-db/src/dhcp.rs:445-485 | over all tables, positive limits and runs: a full sync serves every lease once and in order exactly when each row that ends a page reads back; an empty page leaves the cursor |
| `FeedCursors.EmptyWhenServed` | crates/magnetite-db/src/dhcp.rs:445-485 | in order, a page is empty exactly when everything has been served |
| `FeedCursors.NothingIsSkipped` | crates/magnetite-db/src/dhcp.rs:445-485 | whatever the keys, what is not past the cursor has been served |
| `FeedCursors.ServedByTheEnd` | crates/magnetite-db/src/dhcp.rs:445-485 | whatever the keys, an empty page means that everything has been served |
| `FeedCursors.StuckForever` | crates/magnetite-db/src/dhcp.rs:445-485 | a query that leaves the cursor where it was is answered the same for ever |
| `FeedCursors.BarInPoolRepeats` | crates/magnetite-db/src/dhcp.rs:452-480 | an input for which a page that is not empty does so: one lease with a bar in its pool id |
| `MailFeed.PartsAdvanceIff` | crates/magnetite-db/src/mail.rs:1282-1374 | from any cursor, each part of the next is its own stream's exactly when no message and no deletion that ends a page holds a bar |
| `MailFeed.MailFeedServesAllIff` | crates/magnetite-db/src/mail.rs:1282-1374 | over all tables, positive limits and runs: a full sync serves each of the three streams once and in order exactly when each row that ends a page has no comma in its time and, but for flag changes, no bar |
| `MailFeed.StreamServes` | crates/magnetite-db/src/mail.rs:1282-1374 | in order, what a stream has served is the start of its listing, and a page is empty exactly when that is all |
| `MailFeed.ExhaustedStreamStays` | crates/magnetite-db/src/mail.rs:1282-1374 | a stream that has nothing left keeps its place, whatever the others serve |
| `MailFeed.IdleCursorStays` | crates/magnetite-db/src/mail.rs:1282-1374 | from any cursor, an exhausted mail feed keeps the parts of its cursor, and its text from the next query on |
| `MailFeed.BarSkipsDeletion` | crates/magnetite-db/src/mail.rs:1274-1374 | over every run, a message with a bar in its id keeps one of two deletions from ever being served |
| `LeaseReplication.LeaseDb.UpsertLease` | crates/magnetite-db/src/dhcp.rs:423-440 | replaces the lease of the address |
| `LeaseReplication.LeaseDb.ApplyReplicatedLease` | crates/magnetite-db/src/dhcp.rs:490-507 | writes exactly when no lease at least as new is held for the address |
| `LeaseReplication.NothingRegresses` | crates/magnetite-db/src/dhcp.rs:487-507 | whatever arrives, in any order, what is held comes from what was seen and is at least as new as all of it |
| `LeaseReplication.RedeliveryChangesNothing` | crates/magnetite-db/src/dhcp.rs:490-507 | re-applying anything already applied changes nothing |
| `LeaseReplication.OrderDoesNotMatter` | crates/magnetite-db/src/dhcp.rs:490-507 | servers that saw the same leases agree when no two tie |
| `LeaseReplication.FullSync` | crates/magnetite-db/src/dhcp.rs:445-507 | an empty peer that applies what a feed served up to its first empty page, in any order and with repeats, holds exactly the server's leases |
| `EnvExpand.ExpandEnvVars` | crates/magnetite-core/src/config.rs:674-732 | the character loop computes the left-to-right meaning of the token list |
| `EnvExpand.OnePass` | crates/magnetite-core/src/config.rs:674-732 | values are never read again: a success joins the token values as they are, a failure is that of the first failing token |
| `EnvExpand.FailsExactlyWhen` | crates/magnetite-core/src/config.rs:671-673 | it fails exactly on an unterminated or empty reference, or an unset name without default |
| `EnvExpand.ValuesCannotBreakIt` | crates/magnetite-core/src/config.rs:674-732 | success depends on which names are set, never on their values |
| `EnvExpand.DoubledTextIsLiteral` | crates/magnetite-core/src/config.rs:669-669 | a text with every dollar doubled expands to itself undoubled |
| `EnvExpand.DefaultIsForUnsetNames` | crates/magnetite-core/src/config.rs:668-668 | in any text a reference with a default expands to the value of a set name, even an empty one, and to the default as it stands otherwise; a blank name is an error |
| `EnvExpand.EmptyValueIsKept` | crates/magnetite-core/src/config.rs:668-668 | a variable set to nothing |
| `EnvExpand.BareNamesMustBeSet` | crates/magnetite-core/src/config.rs:665-667 | without a default an unset name is an error |
| `EnvExpand.FindIsFirst` | crates/magnetite-core/src/config.rs:692-697 | a reference ends at the first closing brace |
| `DnsCache.SharedCache.Get` | crates/magnetite-dns/src/cache.rs:36-46 | answers an unexpired entry and drops an expired one |
| `DnsCache.SharedCache.Put` | crates/magnetite-dns/src/cache.rs:49-76 | leaves what a put may leave, with any oldest entry as victim |
| `DnsCache.RunIsBoundedAndWithin` | crates/magnetite-dns/src/cache.rs:36-76 | in every run the cache holds at most 4096 entries, each the unbounded cache's |
| `DnsCache.HitsAreLatestAndFresh` | crates/magnetite-dns/src/cache.rs:36-46 | every hit is the key's last put with a lifetime, unexpired |
| `DnsCache.EvictionIsALastResort` | crates/magnetite-dns/src/cache.rs:56-68 | a put loses at most one live entry of another key, an oldest one of 4096 live entries |
| `DnsCache.PutLosesIff` | crates/magnetite-dns/src/cache.rs:56-68 | a put can lose one exactly when the cache is full of live entries and another key is an oldest one, and is bound to exactly when, besides, its own key is not |
| `DnsCache.FewKeysAgree` | crates/magnetite-dns/src/cache.rs:36-76 | with fewer than 4096 keys ever put, every get answers as the unbounded cache |
| `DnsCache.FullCacheForgets` | crates/magnetite-dns/src/cache.rs:36-76 | at 4096 that ends: a run of 4096 puts and one refresh forgets a key the unbounded cache still answers |
| `Ber.BerLen` | crates/magnetite-addc/src/cldap.rs:113-127 | the octets are the one minimal definite form of the length (with `Ber.LengthIsUnique`) |
| `Ber.LengthIsUnique` | crates/magnetite-addc/src/cldap.rs:113-127 | a length has one minimal form |
| `Ber.ReadLen` | crates/magnetite-addc/src/cldap.rs:190-208 | the shifting loop reads the big-endian value of one to four octets |
| `Ber.LengthRoundTripIff` | crates/magnetite-addc/src/cldap.rs:113-208 | a length written anywhere reads back exactly below 2^32 |
| `Ber.ElementReadsBack` | crates/magnetite-addc/src/cldap.rs:129-134 | an element written anywhere reads back as its tag and contents |
| `Ber.Integer` | crates/magnetite-addc/src/cldap.rs:141-148 | the contents mean the id in two's complement, and are minimal exactly for ids that are not negative or need four octets |
| `Ber.MinusOneIsLong` | crates/magnetite-addc/src/cldap.rs:141-148 | -1, in four octets where one would do |
| `Cldap.ParseSearchMessageId` | crates/magnetite-addc/src/cldap.rs:210-236 | the moving-position parser reads SEQUENCE, INTEGER and search request, or nothing |
| `Cldap.ReadIdIsIntegerIff` | crates/magnetite-addc/src/cldap.rs:225-229 | the id read is the INTEGER sent exactly when that fits in 32 bits and, if negative, came in at least four octets |
| `Cldap.LargeIdWraps` | crates/magnetite-addc/src/cldap.rs:210-236 | a minimal INTEGER, 2^31, that reads as -2^31 |
| `Cldap.ShortNegativeIsMisread` | crates/magnetite-addc/src/cldap.rs:210-236 | a minimal INTEGER, -1, that reads as 255 |
| `Cldap.RequestParsesIff` | crates/magnetite-addc/src/cldap.rs:210-236 | a framed search request parses to its id exactly when its length is below 2^32 |
| `Cldap.BuildCldapResponse` | crates/magnetite-addc/src/cldap.rs:153-187 | at any size the answer is two nested well-formed messages; it reads back as exactly two messages with the id, the first carrying the blob unchanged, exactly when the blob is shorter than 2^32 - 44 - the octets of the id |

## Left out

- Sockets, HTTP and the protocol servers: a command's success is a parameter of each pass.
- Kerberos, password hashes, DRSUAPI decoding and the promotion and demotion of controllers: foreign cryptography and remote writes.
- Store errors in the middle of an operation, and races between the statements of one operation other than a bid for the lease, which is split into its statements.
- Overflow of 32-bit versions, terms, failure counts and the RID counter; the RID reservation assumes that a block fits.
- Wrap-around of a zone serial during a run: `DnsReplay` covers runs that stay below the maximum.
- The time between a centre's check of its flag and its action.
- The order of commands and log lines of a failover decision beyond what the decision holds, and DNS steering after it.
- Addresses and other coordinates of ring partners: partners are ids. The derivation of a locator identity from a service name is one yes-or-no answer per controller.
- The ids the store draws: a row's is a counter, a zone's a parameter. Record data is presentation text instead of JSON, and a zone is its id, name and serial.
- Rows that enter a table below a feed's cursor; the feeds are over a fixed table with distinct keys.
- RFC 3339 parsing: the lease guard compares times as the text the feed orders by.
- Applying replicated mail messages, flags and deletions: a lookup by id in front of one write each.
- The netlogon blob itself, FSMO role ownership, RPZ, geo rules and TSIG keys.
- The record editor's checks of record data and of the zone's role: each refuses an edit and changes nothing.
- Membership.RecreationKeepsVersionsIff: is about the versions of the links, not about the other columns of the group.
- Topology.TopologyManager.Pass: does not model how an agent replicates, only which agents exist.
- DnsReplay.ReplayIsExact: is about copies without duplicates; `DnsReplay.RemovalIsExactIff` says what a removal does to the others.
