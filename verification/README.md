# Verified models of Vyomi's core engines

Vyomi simulates cloud providers. Seven of its engines are state machines over plain
dictionaries with invariants that span many requests. This project models them in
Dafny 4.11 and proves what they promise, over every request and every run.

Each engine appears twice: as functions from a state and a request to a new state and
a reply, and, where the program updates its records in place, as a class whose methods
have the program's loops and assignments. A method's contract ties the new state to
the function; the lemmas prove the promises about the function.

| module | what it models |
|---|---|
| `FilterGrammar` | the escaped, comma-separated filters of the App Configuration data plane |
| `ConfigStore`, `ConfigGuarantees`, `ConditionalRequests`, `SnapshotSelection`, `KeyValueStore` | the App Configuration store: live index, bounded revision log, etags and preconditions (sections 13.1.1 and 13.1.2 of RFC 9110), locks, snapshots, reads at an `Accept-Datetime` (section 2.1.1 of RFC 7089) |
| `Ipv4`, `NetworkGraph`, `NetworkConsistency`, `NetworkGuarantees`, `NetworkWrites`, `ArmNetwork` | private addresses, CIDR blocks (section 3.1 of RFC 4632), and the NIC, public-IP and VM records of one store that point at each other |
| `VirtualNetworks`, `VirtualNetworkWrites` | address spaces and subnets of one virtual network |
| `SpaceScope`, `SpaceOperations` | the space-scoped dictionary proxies over one global tree |
| `ContainerApps`, `ContainerOperations` | revisions, traffic split, pruning and container reconciliation of one container app |
| `TokenBuckets` | the gateway throttle and the tenant rate limit |
| `RouteSelection`, `RouteTemplates` | the scored route search of an HTTP API |
| `NetworkAcls`, `AclEdits` | association and rules of a VPC's network ACLs |
| `XmlText`, `XmlTree`, `RuleFields`, `BucketLifecycle`, `BucketCors`, `BucketValidation`, `BucketReading` | S3 lifecycle and CORS rules, their XML printer and reader (sections 2.2, 2.4 and 2.11 of XML 1.0) |
| `Subscriptions`, `Adoption` | adoption of records stored under other subscription ids |
| `Common`, `Dicts` | optional values, string helpers, the key order of a dictionary |

`dafny verify dfyconfig.toml` checks the whole project.

Where an expected property does not hold of the code, the model follows the code, and
lemmas give an input that breaks it and say exactly when it holds or what holds instead:

- `NetworkGuarantees.WrongKindShares`: no reference is checked for the kind of record it names, so that a VM can name a
  public IP where a NIC is meant, and take it from under a NIC when it is deleted; `VmDeleteExactly` says when a VM
  delete keeps the graph consistent, `ConsistentThroughoutExactly` when a run does, and `AlwaysConsistent` that it does
  when what is marked for deletion is named as what it is; `AlwaysApart` says that addresses stay apart anyway.
- `RouteSelection.CatchAllCanBeatExact`, `GreedyCanBeatPlain`, `AnyCanBeatNamed`: the docstring at
  `core/apigatewayv2_core.py:658` ranks exact over parameter over greedy over ANY, but the score counts the template's
  length, so `/{p+}` wins over `/a` and over `/{p}`, and `ANY /{pp}` over `GET /{p}`; `DocumentedRanksExactly` says when
  each rank holds of the chosen route, `LiteralLeadsExactly` when a literal route is ahead.
- `VirtualNetworks.PutCanLeaveSpace`: a PUT without an address space is checked against the old space and stored with
  the catalogue's default one; `ContainmentExactly` gives the condition for one write, `InsideThroughoutExactly` for a run.
- `VirtualNetworks.AttachedSubnetsKept`, `AttachedPrefixesKept`, `DeleteDropsSubnetsInUse`: a PUT that lists no subnets
  drops subnets in use, a write moves one it lists under another prefix, and a DELETE drops them all, without a check.
- `NetworkGuarantees.TwinConfigsCollide`: two dynamic configurations of one new NIC in one subnet get one address;
  `SharedAddressExactly` and `NicAddressesApartExactly` give the condition on the payload and the state before.
- `ContainerApps.ConflictBreaksSingleMode`: a PUT refused with 409 has already switched the revision mode;
  `ConflictKeepsLatestExactly` gives the condition.
- `ContainerApps.ConflictSkewsTraffic`: such a PUT has also replaced the traffic entries, and not the revision weights;
  `ConflictKeepsTrafficExactly` gives the condition for one request, `TrafficExactly` for a run.
- `ConfigGuarantees.LastModifiedDoesNotDecide`: the second loop of a by-key snapshot does not make the newest label win;
  `NewestWinsExactly` gives the condition, `ComposeWinners` says which label wins.
- `ConfigGuarantees.EvictionForgets`: after an eviction, a point-in-time read can miss a live key; `TimeTravel` gives the
  condition.
- `FilterGrammar.PrefixFilter`: a literal that ends in a backslash, followed by a star, is read as an exact term.
- `SpaceScope.FallbackIsShared`: without an active space all tenants and providers share one dictionary per service.
- `Subscriptions.SecondCopyLost`: the docstring at `core/azure_arm_core.py:108` says nothing disappears, but of two
  foreign records renamed to one key only the first is kept; `NothingLostExactly` gives the condition.

## Model

| member | source | states |
|---|---|---|
| FilterGrammar.SplitFilter | core/azure_appconfiguration_core.py:613-629 | the loop over an index returns the terms of the grammar: a comma ends a term unless a backslash stands before it |
| FilterGrammar.JoinedLiteralsMatchExactly | core/azure_appconfiguration_core.py:613-657 | joining backslash-escaped literals with commas accepts exactly those values, if and only if the list is neither empty nor one empty literal and no literal spells the null label |
| FilterGrammar.JoinedLiteralsOnNull | core/azure_appconfiguration_core.py:637-640 | a joined filter accepts the absent label exactly when one literal is a null marker |
| FilterGrammar.EscapedTermIsExact | core/azure_appconfiguration_core.py:632-651 | an escaped literal accepts exactly its own value, or exactly the absent one if it is a null marker |
| FilterGrammar.PrefixFilter | core/azure_appconfiguration_core.py:642-650 | an escaped literal with a trailing star is a prefix test if and only if the literal does not end in a backslash; otherwise it is an exact test for literal plus star |
| FilterGrammar.SuffixFilter | core/azure_appconfiguration_core.py:641-648 | a leading star before any escaped literal is a suffix test |
| FilterGrammar.SubstringFilter | core/azure_appconfiguration_core.py:641-646 | stars on both sides are a substring test if and only if the literal does not end in a backslash |
| FilterGrammar.StarredOnNull | core/azure_appconfiguration_core.py:637-651 | of the filters with a star only the lone star accepts the absent label |
| FilterGrammar.NoFilterAcceptsAll | core/azure_appconfiguration_core.py:632-636 | a missing or empty filter accepts every value and the absent label |
| ConfigStore.StepKeepsInv | core/azure_appconfiguration_core.py:543-578 | every request on either plane keeps: the index is the replay of all revisions ever recorded, the history is their last 5000, etags and revision numbers interleave upwards, and the key order lists each slot once |
| ConfigStore.ReachInv | core/azure_appconfiguration_core.py:524-578 | that invariant holds after every run from the empty store |
| ConfigStore.StepFollows | core/azure_appconfiguration_core.py:549-578 | a request records at most one revision, stamped with its time and tagged with the next counter value; without one, index and log stay |
| ConfigStore.ReplayTail | core/azure_appconfiguration_core.py:690-702 | replaying any tail of the log rebuilds exactly the part of the index that the tail mentions |
| ConfigStore.BoundedLogAgrees | core/azure_appconfiguration_core.py:549-556 | in every reachable state the retained history replays to the live index cut down to the slots it mentions, is at most 5000 long with rising numbers, and replays to the whole index while nothing was evicted |
| ConfigStore.LogUpto | core/azure_appconfiguration_core.py:693-696 | under a non-decreasing clock the revisions stamped by a time are the log as it stood after the last request stamped by then |
| ConfigStore.LogClocked | core/azure_appconfiguration_core.py:549-556 | under a non-decreasing clock the stamps of the revisions rise with their numbers and never pass the last request's time |
| ConfigStore.TimeTravel | core/azure_appconfiguration_core.py:690-702 | a point-in-time read equals the past index cut down to the slots it saw, and equals the past index if and only if no evicted revision is the last write, by that time, of an item live then |
| ConfigStore.TimeTravelExact | core/azure_appconfiguration_core.py:690-702 | with at most 5000 revisions so far, a point-in-time read equals the index after the last request stamped by that time |
| ConfigGuarantees.IfMatchFindsItsVersion | core/azure_appconfiguration_core.py:793-798 | a put, delete or lock request with `If-Match: e` on a live item passes its condition if and only if the write that issued `e` is that item's newest write, and an If-None-Match header does not exclude it |
| ConfigGuarantees.NoLostUpdate | core/azure_appconfiguration_core.py:835-849 | once a request conditional on a tag has changed its item, any later request conditional on that tag changes nothing, and gets 412 if its item exists |
| ConfigGuarantees.LockedStep | core/azure_appconfiguration_core.py:558-578 | no single request except its unlock changes a locked item's presence or any field of it |
| ConfigGuarantees.LockedStays | core/azure_appconfiguration_core.py:344-363 | the same over every run of requests on the data and the management plane |
| ConfigGuarantees.SnapshotFrozen | core/azure_appconfiguration_core.py:907-974 | no later put, delete, lock flip or archive changes the items or composition of a snapshot |
| ConfigGuarantees.ComposeWinners | core/azure_appconfiguration_core.py:936-946 | a snapshot holds, for each key (or key and label) among the selected items, the one whose slot stands last in the index, and nothing else |
| ConfigGuarantees.SnapshotHoldsWinners | core/azure_appconfiguration_core.py:927-958 | a snapshot just created is stored under its name with exactly those winners of the index of that moment, and leaves index and log alone |
| ConfigGuarantees.LastModifiedDoesNotDecide | core/azure_appconfiguration_core.py:941-945 | a run after which a by-key snapshot keeps an older label over one modified later |
| ConfigGuarantees.NewestWinsExactly | core/azure_appconfiguration_core.py:936-946 | in every state reached under a clock, a by-key snapshot keeps the newest selected label of a key if and only if no selected slot of the key that stands earlier in the index was written after the winner's last write |
| ConfigGuarantees.EvictionForgets | core/azure_appconfiguration_core.py:554-555 | a run of 5001 writes after which a point-in-time read differs from the index of that time |
| ConfigGuarantees.SlotSharing | core/azure_appconfiguration_core.py:535-536 | a key and label share their index slot with another pair if and only if the slot string can be cut at a second place |
| ConfigGuarantees.PlainSlotsAreDistinct | core/azure_appconfiguration_core.py:535-536 | keys and labels without the separator never share a slot |
| ConfigGuarantees.OtherSlotsUntouched | core/azure_appconfiguration_core.py:558-578 | a write changes no slot but its own |
| ConfigGuarantees.PutThenRead | core/azure_appconfiguration_core.py:558-566 | a served put is what a read finds next: the sent content, unlocked, stamped now, under a tag above every number used before |
| ConfigGuarantees.DeleteThenRead | core/azure_appconfiguration_core.py:569-578 | a served delete answers with the item that was there, which is gone then |
| ConfigGuarantees.LockThenRead | core/azure_appconfiguration_core.py:864-879 | a served lock request answers with what a read finds next: the same content, locked as asked, under a new tag and stamped now, or unchanged if it was so already |
| ConfigGuarantees.CounterExactly | core/azure_appconfiguration_core.py:543-556 | a request that records anything draws one number for the tag and one for the revision, a served snapshot request one for its tag, and any other none |
| ConditionalRequests.ConditionsExactly | core/azure_appconfiguration_core.py:793-801 | for every pair of If-Match and If-None-Match, each missing, `*` or a tag, and for live and absent items, the reply is 412 if and only if the condition of one header fails; a DELETE of an absent item is answered 204 and a lock of one 404 before the headers are read; none of the three replies changes anything |
| ConditionalRequests.AnswersExactly | core/azure_appconfiguration_core.py:835-879 | past its headers a PUT is refused for a bad body, then for a lock, and a DELETE for a lock; what is left is served, and a lock does not stop a lock request |
| ConditionalRequests.ArmAnswersExactly | core/azure_appconfiguration_core.py:558-578 | a write from the management plane is refused by a lock and by nothing else |
| ConditionalRequests.CreateOnlyNeedsEmptySlot | core/azure_appconfiguration_core.py:799-801 | a PUT with only `If-None-Match: *` never changes an existing item, and one that is served found its slot empty |
| ConditionalRequests.CreatedOnce | core/azure_appconfiguration_core.py:835-842 | of two create-only PUTs of one slot at most one is served, whatever requests come between them except a deletion of the slot |
| SnapshotSelection.SelectedExactly | core/azure_appconfiguration_core.py:654-676 | filters whose keys and labels are lists of escaped literals, or missing, select exactly the items that carry one of the keys, one of the labels and every tag of some filter |
| SnapshotSelection.KeyLabelSnapshotExactly | core/azure_appconfiguration_core.py:935-939 | a snapshot by key and label holds exactly the items asked for |
| SnapshotSelection.KeySnapshotExactly | core/azure_appconfiguration_core.py:935-945 | a snapshot by key holds something for exactly the keys of the items asked for, and for each key the one of them that stands last in the index |
| SnapshotSelection.SnapshotPutAnswers | core/azure_appconfiguration_core.py:927-958 | a snapshot is created, ready and under a new tag, if and only if its name is free, it has one to three filters and a known composition, checked in this order; other snapshots stay |
| SnapshotSelection.SnapshotPatchAnswers | core/azure_appconfiguration_core.py:959-974 | a PATCH gives the snapshot the status asked for and a new tag, even if it had that status, and leaves what it holds and every other snapshot alone; an unknown name and then an unknown status are refused |
| KeyValueStore.Item.constructor | core/azure_appconfiguration_core.py:562-563 | a new item has the given content, is unlocked and stamped now |
| KeyValueStore.Kvs.constructor | core/azure_appconfiguration_core.py:524-528 | the store starts empty |
| KeyValueStore.Kvs.NextEtag | core/azure_appconfiguration_core.py:543-546 | the counter goes up by one and its value becomes the tag; no item changes |
| KeyValueStore.Kvs.Append | core/azure_appconfiguration_core.py:549-556 | a copy of the item is logged under the next number and the history trimmed to 5000; no item changes |
| KeyValueStore.Kvs.Put | core/azure_appconfiguration_core.py:558-566 | refuses a locked item, else replaces the slot by a new object and records it, as the specification's put does |
| KeyValueStore.Kvs.Replace | core/azure_appconfiguration_core.py:562-564 | a new object with a new tag takes the slot; other items stay |
| KeyValueStore.Kvs.Delete | core/azure_appconfiguration_core.py:569-578 | nothing for an absent item, refuses a locked one, else removes the slot and records a deletion |
| KeyValueStore.Kvs.Mark | core/azure_appconfiguration_core.py:874-877 | changes lock, tag and date of one item object in place; every other item, the log and the snapshots keep their values |
| KeyValueStore.Kvs.Lock | core/azure_appconfiguration_core.py:873-879 | flips the lock in place and records the change, or does nothing if it is as asked |
| KeyValueStore.Kvs.AtTime | core/azure_appconfiguration_core.py:690-702 | the loop over the retained history returns the replay of the revisions stamped by the given time |
| KeyValueStore.Kvs.Freeze | core/azure_appconfiguration_core.py:936-946 | the two loops of a snapshot collect the last selected item of each identity in index order |
| KeyValueStore.Kvs.OnePerKey | core/azure_appconfiguration_core.py:941-945 | the second loop of a by-key snapshot returns what it was given, in whatever order it visits |
| KeyValueStore.Kvs.SnapshotPut | core/azure_appconfiguration_core.py:927-958 | 409 for a used name, 400 unless one to three filters and a known composition are given, else a frozen snapshot |
| KeyValueStore.Kvs.SnapshotPatch | core/azure_appconfiguration_core.py:959-974 | 404 or 400, else the status changes under a new tag and the items stay |
| KeyValueStore.Kvs.HandlePut | core/azure_appconfiguration_core.py:835-842 | precondition first, then the value's type and the key's length, then the put |
| KeyValueStore.Kvs.HandleDelete | core/azure_appconfiguration_core.py:843-849 | 204 for an absent item, then the precondition, then the delete |
| KeyValueStore.Kvs.HandleLock | core/azure_appconfiguration_core.py:864-879 | 404 for an absent item, then the precondition, then the flip |
| KeyValueStore.Kvs.Handle | core/azure_appconfiguration_core.py:804-879 | every request on the objects does what the specification's step does and keeps the invariant |
| Ipv4.NestedOrDisjoint | core/azure_arm_ext_core.py:1725-1738 | two CIDR blocks pass the overlap test exactly when they share an address, and exactly when one contains the other |
| Ipv4.AllocateIsLeast | core/azure_arm_ext_core.py:431-442 | the allocated address is the least free one from base+4 to below broadcast; none is given exactly when all of those are used |
| Ipv4.BlockExactly | core/azure_arm_ext_core.py:1709-1714 | a block holds exactly the addresses with its network part, whatever host bits it is written with |
| Ipv4.BlockSizes | core/azure_arm_ext_core.py:1709-1714 | a prefix of length 0 holds 2^32 addresses, one of length 32 a single one, and each further bit halves the number |
| Ipv4.AllocPrivateIp | core/azure_arm_ext_core.py:431-442 | the loop over the hosts computes that allocation |
| NetworkConsistency.StepConsistentExactly | core/azure_arm_ext_core.py:460-700 | a request keeps the graph consistent if and only if it is no VM delete or a clean one; consistent means: a linked public IP names a live configuration that references it, a referenced public IP is linked to the NIC that references it, a NIC's VM is v exactly when v lists it, and no two NICs share a private address |
| NetworkConsistency.VmDeleteExactly | core/azure_arm_ext_core.py:673-697 | deleting a VM keeps a consistent graph consistent if and only if it is clean: no record it removes through a mark, or through a reference to what is no NIC, is linked to or owned by a record that is left, or the other way round |
| NetworkConsistency.ConsistentThroughoutExactly | core/azure_arm_ext_core.py:519-697 | the graph is consistent throughout a run if and only if every VM delete of the run is clean in the state it finds |
| NetworkConsistency.AlwaysConsistent | core/azure_arm_ext_core.py:519-697 | after every run whose payloads mark for deletion only NICs as NICs and only public IPs as public IPs, whatever else they reference, the graph is consistent |
| NetworkConsistency.AlwaysApart | core/azure_arm_ext_core.py:419-455 | after every run, whatever kinds of record its payloads name, no two NICs hold one private address and no two public IPs one public address: a delete of the wrong kind breaks links and owners, never this |
| NetworkConsistency.RightKindsClean | core/azure_arm_ext_core.py:685-697 | in a consistent graph with only such marks every VM delete is clean |
| NetworkGuarantees.WrongKindShares | core/azure_arm_ext_core.py:649-697 | a run of seven accepted requests after which two NICs reference one public IP: a VM names it as its NIC, and its delete takes it along |
| NetworkGuarantees.OneOwnerEach | core/azure_arm_ext_core.py:569-572 | in a consistent graph a public IP is referenced by one NIC and a NIC is listed by one VM |
| NetworkGraph.UnlinkClears | core/azure_arm_ext_core.py:631-640 | unlinking a NIC of a wired graph leaves no public IP linked to it and changes no other link |
| NetworkGuarantees.NicPutHonours | core/azure_arm_ext_core.py:555-596 | an accepted NIC write stores each requested subnet and public IP, a static address as asked and in its subnet, a dynamic one kept or else the least free one, and keeps the NIC's VM |
| NetworkGuarantees.NicPutRelinks | core/azure_arm_ext_core.py:596-615 | an accepted NIC write leaves every other record alone but for its link: what the NIC references is linked to one of its configurations that does, what it referenced before is no longer linked to it, and other links stay |
| NetworkGuarantees.TwinConfigsCollide | core/azure_arm_ext_core.py:581-588 | two dynamic configurations of one accepted new NIC in one subnet get the same address |
| NetworkGuarantees.NicAddressesApartExactly | core/azure_arm_ext_core.py:573-588 | the addresses an accepted NIC write stores all differ if and only if no two configurations of its payload collide in the state before |
| NetworkGuarantees.SharedAddressExactly | core/azure_arm_ext_core.py:573-588 | two configurations of an accepted NIC write get one address if and only if they bring the same address along, or one brings what is the least free host of the other's subnet, or their subnets overlap and every host between the places where allocation starts in them is used |
| NetworkGuarantees.FreshConfigsCollide | core/azure_arm_ext_core.py:581-588 | where subnets do not overlap, two dynamic configurations that keep no address get one address if and only if they are in one subnet |
| NetworkGuarantees.VmDeleteCascades | core/azure_arm_ext_core.py:685-697 | deleting a VM removes the records it deletes by reference, each if it is still there at its turn, and what their configurations mark; a record that is left is no VM's if it was listed, loses a link to a record so deleted that referenced it, and is otherwise as it was |
| NetworkGuarantees.TargetsExactly | core/azure_arm_ext_core.py:685-697 | in a consistent graph where what is marked is named as what it is, what is deleted by reference are exactly the NICs whose reference says so |
| NetworkGuarantees.VmPutHonours | core/azure_arm_ext_core.py:649-670 | an accepted VM write names records that exist and are no other VM's; the NICs among them are its own now, the other NICs it had are free, and every other record is as it was |
| NetworkGuarantees.PipPutHonours | core/azure_arm_ext_core.py:480-507 | a public-IP write keeps the address and link there were; a new address is one no public IP had, and is missing only if every candidate was taken |
| NetworkWrites.NicRewriteKeeps | core/azure_arm_ext_core.py:544-547 | an accepted write to a NIC that lists no configurations keeps their number and the subnet, public IP, delete mark and method of each, its name unless that was empty, a static address, and for a dynamic one the address of the last old configuration of its name and subnet |
| NetworkWrites.NicRewriteRelinks | core/azure_arm_ext_core.py:596-615 | such a write links what the configurations reference to the NIC and changes nothing else of any other record |
| NetworkWrites.NicRewriteIsExplicit | core/azure_arm_ext_core.py:546-547 | it is answered, and refused, as a write that spells out the old configurations with their addresses |
| NetworkWrites.NoConfigurationsExactly | core/azure_arm_ext_core.py:546-550 | a NIC write is refused for having no configurations if and only if it lists an empty set, or none and there are none to go on with, as of a new NIC |
| NetworkWrites.PreviousIsLast | core/azure_arm_ext_core.py:581-585 | the address a dynamic configuration keeps is that of the last old one of its name and subnet, and none if there is no such one |
| NetworkWrites.NicPutRefusedExactly | core/azure_arm_ext_core.py:542-588 | a NIC write is refused with a given error if and only if a security group it names is missing or else that is the fault of the first faulty entry: subnet, public IP missing, public IP taken, address outside, address used, subnet full, in this order |
| NetworkWrites.VmPutRefusedExactly | core/azure_arm_ext_core.py:649-659 | a VM write is refused with a given error if and only if that is the fault of its first bad reference, or all references are good and its other fields are not accepted |
| NetworkWrites.VmPatchKeeps | core/azure_arm_core.py:544-550 | a PATCH that lists no NICs leaves the VM its NICs: its record is as it was, and in a graph whose owners match nothing changes at all |
| NetworkWrites.VmPutReplaces | core/azure_arm_core.py:677-684 | a PUT that lists no NICs releases every NIC the VM had, and one that lists some stores exactly those |
| NetworkWrites.VmPatchLists | core/azure_arm_core.py:675-692 | a PATCH that lists NICs changes the list of the VM and no other field of its record |
| NetworkWrites.NicDeleteExactly | core/azure_arm_ext_core.py:531-541 | a NIC is deleted if and only if it is there and no VM holds it; it goes with the links to it that it referenced, and everything else stays |
| NetworkWrites.PipDeleteExactly | core/azure_arm_ext_core.py:472-479 | a public IP is deleted if and only if it is there and not linked, and nothing else changes |
| NetworkWrites.PipAddressExactly | core/azure_arm_ext_core.py:445-455 | a public IP without an address gets the first candidate that no public IP has, and none if all are taken |
| NetworkWrites.RepliesExactly | core/azure_arm_core.py:544-566 | over all nine kinds of request: a refusal changes nothing, a delete is answered 204 if and only if there was nothing and takes its record otherwise, and a write is answered 200 if and only if its record was there and leaves it there |
| NetworkWrites.OtherRecordsExactly | core/azure_arm_core.py:669-713 | a write or delete of another kind of record changes that record alone, and the rest of a payload leaves the fields the graph reads of a record of its kind |
| ArmNetwork.Network.UsedPrivateIps | core/azure_arm_ext_core.py:419-428 | collects the addresses of every NIC but one |
| ArmNetwork.Network.NicLink | core/azure_arm_ext_core.py:620-628 | links each referenced, existing record to the configuration, the last reference winning |
| ArmNetwork.Network.NicUnlink | core/azure_arm_ext_core.py:631-640 | clears the link of each referenced record that points at this NIC |
| ArmNetwork.Network.PreviousIp | core/azure_arm_ext_core.py:582-585 | the address of the last old configuration with this name and subnet |
| ArmNetwork.Network.ResolveConfig | core/azure_arm_ext_core.py:556-596 | one payload configuration checked and given its address, with the first error that applies; any stored record passes as its public IP |
| ArmNetwork.Network.BuildConfigs | core/azure_arm_ext_core.py:555-596 | all configurations, or the first one's error |
| ArmNetwork.Network.PutNic | core/azure_arm_ext_core.py:542-616 | the NIC write: checks, unlink, replace, link; nothing changes when it is refused |
| ArmNetwork.Network.DeleteNic | core/azure_arm_ext_core.py:531-541 | refused while a VM holds the NIC, else unlinks and removes it |
| ArmNetwork.Network.PutPip | core/azure_arm_ext_core.py:480-507 | a public IP keeps its address or gets the first unused candidate, and keeps its link |
| ArmNetwork.Network.DeletePip | core/azure_arm_ext_core.py:472-479 | refused while the public IP is linked, else removes it |
| ArmNetwork.Network.ValidateVm | core/azure_arm_ext_core.py:649-659 | the first referenced record that is missing or another VM's refuses the write |
| ArmNetwork.Network.AfterVmUpsert | core/azure_arm_ext_core.py:662-670 | hands the listed NICs to the VM and takes back those it no longer lists; other listed records stay |
| ArmNetwork.Network.PutVm | core/azure_arm_core.py:544-550 | validation, the write of the record, then the back-references |
| ArmNetwork.Network.DeleteVm | core/azure_arm_ext_core.py:685-697 | frees or deletes each listed record with what its configurations mark, in the order listed |
| ArmNetwork.Network.ReleaseOne | core/azure_arm_ext_core.py:687-697 | one reference: the record is no VM's any more, and if the reference says so it is unlinked and removed with what its configurations mark |
| ArmNetwork.Network.Handle | core/azure_arm_ext_core.py:460-700 | every request on the dictionary does what the specification's step does and keeps the graph consistent if and only if it is clean |
| VirtualNetworks.SubnetsAlwaysDisjoint | core/azure_arm_ext_core.py:1720-1740 | in every reachable state the subnets are pairwise disjoint, and so are the address spaces |
| VirtualNetworks.OneSubnetPerAddress | core/azure_arm_ext_core.py:1738-1740 | in every reachable state no address lies in two subnets |
| VirtualNetworks.ContainmentExactly | core/azure_arm_ext_core.py:1716-1746 | an accepted write to a network whose subnets lie in its spaces leaves them inside if and only if it gives prefixes, or lists no subnets, or lists only subnets of the space the network keeps (a PATCH) or gets by default (a PUT), or that space is empty |
| VirtualNetworks.PatchKeepsContainment | core/azure_arm_ext_core.py:1719-1737 | an accepted PATCH of an existing network that does not mention the space meets that condition |
| VirtualNetworks.InsideThroughoutExactly | core/azure_arm_core.py:669-713 | throughout a run every subnet lies in one of its network's address spaces if and only if every accepted write of the run meets that condition in the state it finds |
| VirtualNetworks.AlwaysInside | core/azure_arm_core.py:669-712 | over a run whose network writes each give prefixes, or patch an existing network without mentioning its space, or meet that condition, every subnet lies in one of the address spaces |
| VirtualNetworks.PutCanLeaveSpace | core/azure_arm_core.py:669-713 | a run of two accepted PUTs after which a subnet lies outside the address space |
| VirtualNetworks.AttachedSubnetsKept | core/azure_arm_ext_core.py:1741-1746 | an accepted write keeps the names of the subnets in use if and only if it lists subnets, or patches an existing network, or none was in use |
| VirtualNetworks.AttachedPrefixesKept | core/azure_arm_ext_core.py:1741-1746 | an accepted write keeps the subnets in use with their prefixes if and only if it lists each with the prefix it has, or lists none and patches an existing network, or none was in use |
| VirtualNetworks.DeleteDropsSubnetsInUse | core/azure_arm_core.py:563-566 | deleting the network is accepted and drops its subnets while NICs are in them |
| VirtualNetworks.SubnetPutThenRead | core/azure_arm_ext_core.py:1822-1832 | an accepted subnet PUT is what a lookup of its name finds, if and only if the network did not list another subnet of that name; lookups of other names stay |
| VirtualNetworkWrites.WriteStores | core/azure_arm_core.py:669-713 | an accepted write stores the blocks and subnets it lists, one for one, and for what it leaves out what it starts from: the old record for a PATCH, the catalogue for a PUT |
| VirtualNetworkWrites.WriteRefusedExactly | core/azure_arm_ext_core.py:1716-1752 | a write is refused with a given error if and only if that is what is wrong with it: the first block that is malformed or overlaps, else the first subnet that is malformed, outside or overlaps, else a dropped subnet in use, else its other fields |
| VirtualNetworkWrites.SubnetDeleteExactly | core/azure_arm_ext_core.py:1800-1821 | a subnet is deleted if and only if the network and the subnet are there and no NIC is in it; only the first subnet of the name goes, and nothing else changes |
| VirtualNetworkWrites.SubnetPutExactly | core/azure_arm_ext_core.py:1822-1832 | a subnet write puts the subnet last in place of the first of its name, if the list so made is valid for the network, and is refused for what is wrong with that list |
| VirtualNetworkWrites.NoNetworkNoSubnets | core/azure_arm_ext_core.py:1800-1803 | without a network no subnet is written or deleted |
| VirtualNetworks.VirtualNetwork.CheckSpace | core/azure_arm_ext_core.py:1720-1727 | the loop over the address prefixes reports the first bad or overlapping one |
| VirtualNetworks.VirtualNetwork.CheckSubnets | core/azure_arm_ext_core.py:1729-1740 | the loop over the subnets reports the first one that is bad, outside every space or overlapping |
| VirtualNetworks.VirtualNetwork.Check | core/azure_arm_ext_core.py:1716-1746 | the whole validation, against the payload's space or else the old one |
| VirtualNetworks.VirtualNetwork.Handle | core/azure_arm_ext_core.py:1800-1832 | network and subnet writes and deletes do what the specification's step does and keep subnets and spaces disjoint |
| SpaceScope.Refinement | core/app_context.py:858-960 | after any run, a proxy's dictionary is what its own operations make of a plain dictionary, whatever other tenants, providers, services or nested keys did in between |
| SpaceScope.RefinementAcrossSwitches | core/vyomi_platform.py:1109-1117 | the same over runs that also switch the active space, when each tenant and provider has at most one space |
| SpaceScope.ReadsLastWrite | core/app_context.py:920-939 | a read after an assignment, with only reads and unrelated calls in between, returns the assigned value |
| SpaceScope.CallActsOnItsView | core/app_context.py:914-951 | a call acts on its own dictionary exactly as the operation acts on a plain one |
| SpaceScope.CallLeavesOthers | core/app_context.py:871-880 | a call changes no dictionary of another tenant, provider, service or nested key, also when it creates a space |
| SpaceScope.PlacesApart | core/app_context.py:871-899 | two different contexts never settle on one space |
| SpaceScope.AutoSpaceIsFound | core/app_context.py:892-910 | the space a pivot creates matches its own context if and only if tenant and provider are not empty |
| SpaceScope.UnnamedPivotsEachTime | core/app_context.py:871-912 | a context with an empty name, if there were one, would make another space at each call and not see its last write |
| SpaceScope.UnnamedWritesToDefault | core/app_context.py:871-912 | its write would show up in the default tenant's dictionary if that had no space |
| SpaceScope.RequestsAreNamed | core/app_context.py:669-675 | every context the program builds has a tenant and a provider: the header's tenant, the active one or the default, and one of three providers |
| SpaceScope.OneAutoSpacePerPair | core/app_context.py:886-912 | over any run at most one automatic space exists per tenant and provider |
| SpaceScope.FallbackIsShared | core/app_context.py:881-883 | without an active space every context sees and changes the same dictionary of a service |
| SpaceScope.GlobalState.PivotToMatchingSpace | core/app_context.py:886-912 | the first space of the context in order, or a new one inserted into the tree |
| SpaceScope.GlobalState.SwitchSpace | core/vyomi_platform.py:1109-1117 | an id whose record is a dictionary becomes the active space, an empty record getting content by it; any other id is refused and changes nothing |
| SpaceScope.GlobalState.ServiceState | core/app_context.py:858-884 | the active space if it matches, else the pivot's, else the shared fallback |
| SpaceScope.GlobalState.Apply | core/app_context.py:914-951 | a mapping method creates what is missing on the way and applies its operation, as the specification's step does |
| SpaceOperations.CallByOperation | core/app_context.py:920-951 | what a context sees after its own call: an assignment stores; `setdefault` keeps the value of a key that is there and stores the given one else; a removal leaves the key absent; an update gives each key of its argument that value; a clear leaves nothing; but for a clear, every other key keeps presence and value |
| SpaceOperations.LastTouchDecides | core/app_context.py:914-951 | after any run of own and independent calls, a key reads what the last own call that touches it left: a value, nothing after a removal or a clear, and after a `setdefault` what it read then or else the given value |
| SpaceOperations.UntouchedKey | core/app_context.py:914-951 | a key that no own call of a run touches reads as before the run |
| SpaceOperations.StoredWhereServed | core/app_context.py:858-884 | a call is stored in the active space if that is the context's, else in the first of the context in order, under the bare service name for AWS and with the provider before it for the others; every other dictionary there, every other space, the fallback, the order and the active space stay |
| SpaceOperations.StoredInNewSpace | core/app_context.py:886-912 | a context that no space serves gets a new one of its tenant and provider, marked automatic and last in order, which holds that call's dictionary alone |
| SpaceOperations.StoredInFallback | core/app_context.py:881-883 | without an active space the call is stored in the fallback under the bare service name, and no space changes |
| SpaceOperations.SwitchExactly | core/vyomi_platform.py:1109-1117 | a switch makes the id active if and only if its record is a dictionary, and changes no other space, no order and no fallback |
| ContainerApps.ContainersConserved | core/azure_app_core.py:334-376 | over any guarded run every container started is held by one revision name or was handed to stop once, never both and never twice |
| ContainerApps.ContainersConservedExactly | core/azure_app_core.py:334-376 | after a run over which the runtime never repeats a container, every container started is held or was handed to stop once if and only if every DELETE of the run could stop what was held, or nothing was: what a DELETE loses is never found again |
| ContainerApps.DeleteConservesExactly | core/azure_app_core.py:366-376 | a DELETE holds nothing afterwards, and loses no container if and only if the runtime can stop or nothing was held |
| ContainerApps.ContainersMatchReplicas | core/azure_app_core.py:304-363 | after an accepted request, with a runtime whose starts succeed, a stored revision holds a container if and only if its replica count is positive |
| ContainerApps.TrafficConserved | core/azure_app_core.py:312-329 | after every accepted request the revision weights add up to the weight of the entries that target stored revisions |
| ContainerApps.TrafficExactly | core/azure_app_core.py:312-329 | in every reachable state they do so if and only if the stored entries weigh, over stored revisions, what those of the last accepted request did |
| ContainerApps.ConflictKeepsTrafficExactly | core/azure_app_core.py:453-469 | after a conflicting PUT they do so, if they did before, if and only if the requested entries weigh, over stored revisions, what the former ones did |
| ContainerApps.ConflictSkewsTraffic | core/azure_app_core.py:453-469 | a run with one conflicting PUT after which the weights do not match the stored entries |
| ContainerApps.AlwaysBalanced100 | core/azure_app_core.py:221-225 | in every reachable state the stored traffic entries add up to 100 |
| ContainerApps.FullTraffic | core/azure_app_core.py:221-225 | over every run, when every entry targets a stored revision, the revision weights add up to 100 |
| ContainerApps.AlwaysListed | core/azure_app_core.py:457-491 | in every reachable state the order of revisions lists each stored revision once and no other |
| ContainerApps.SingleModeServesLatest | core/azure_app_core.py:457-484 | over every run without a suffix conflict, Single mode keeps its latest revision stored and active |
| ContainerApps.ConflictExactly | core/azure_app_core.py:461-469 | a valid PUT is refused with 409 if and only if the revision it has to make is there already, under another template if the suffix named it |
| ContainerApps.ConflictKeepsLatestExactly | core/azure_app_core.py:453-469 | after a conflicting PUT the latest revision serves if and only if the PUT asked for Multiple mode or the latest revision was stored and active before |
| ContainerApps.ConflictBreaksSingleMode | core/azure_app_core.py:453-469 | a run with one conflicting PUT after which a Single-mode app's latest revision is inactive |
| ContainerApps.PruneListed | core/azure_app_core.py:487-491 | pruning keeps every active revision, changes none and drops only inactive ones |
| ContainerApps.PutDeploysTemplate | core/azure_app_core.py:458-484 | after an accepted PUT the latest revision, if pruning kept it, has the requested template and name; in Single mode it was kept and is the only active one |
| ContainerApps.ContainerApp.RefreshRevisions | core/azure_app_core.py:312-328 | the two loops give each revision the weight of the entries that target it and the replica count that follows |
| ContainerApps.ContainerApp.SyncRuntime | core/azure_app_core.py:334-363 | starts and stops containers revision by revision; a failed start marks the app failed |
| ContainerApps.ContainerApp.StopRuntime | core/azure_app_core.py:366-376 | hands each held container to stop once |
| ContainerApps.ContainerApp.PruneRevisions | core/azure_app_core.py:487-491 | drops the oldest inactive revisions beyond the limit |
| ContainerApps.ContainerApp.PutRequest | core/azure_app_core.py:388-484 | the PUT: validation, the new configuration, the revision, modes, pruning and refresh, with the configuration already replaced when a conflict is raised |
| ContainerApps.ContainerApp.Handle | core/azure_app_core.py:569-585 | every request does what the specification's step does and keeps the books of containers |
| ContainerOperations.ReplicasExactly | core/azure_app_core.py:304-309 | after every accepted request an inactive revision, and every revision of a stopped app, has 0 replicas; an active one has its minimum, at least 1, if it has weight or a minimum, and else 0 |
| ContainerOperations.StopStopsAll | core/azure_app_core.py:532-535 | after an accepted Stop every stored revision has 0 replicas and, with a runtime that starts and stops, holds no container |
| ContainerOperations.StatusExactly | core/azure_app_core.py:532-535 | Start and Stop set the status asked for, every other request keeps it, unless a start that was needed was answered with an error |
| ContainerOperations.OperationsExactly | core/azure_app_core.py:550-585 | Activate and Deactivate set `active` of the revision named and of no other, and are refused without it; Deactivate is refused in Single mode |
| ContainerOperations.ContainersExactly | core/azure_app_core.py:334-363 | a stored revision holds afterwards the container it held if it is wanted or cannot be stopped, a new one if it is wanted and its start succeeds, and else none; what other names hold stays |
| ContainerOperations.WeightsExactly | core/azure_app_core.py:312-326 | the weight of each stored revision is the sum over the entries that send traffic to it, and 0 without ingress |
| ContainerOperations.PutRevisionsExactly | core/azure_app_core.py:453-484 | an accepted PUT leaves the mode and entries asked for, the deployed revision as latest, each revision's template, in Single mode only the deployed one active, and of the others those that pruning leaves |
| ContainerOperations.PutRefusedExactly | core/azure_app_core.py:388-469 | a PUT refused for its fields changes nothing; one refused for its suffix has taken the mode and the entries and nothing else |
| ContainerOperations.PruneCounts | core/azure_app_core.py:487-491 | pruning takes inactive revisions only, and leaves as many of them as are to be kept, or all if there are no more |
| ContainerOperations.PruneTakesOldest | core/azure_app_core.py:487-491 | pruning takes no inactive revision while one that stands before it stays |
| TokenBuckets.AdmissionBound | core/apigatewayv2_gateway.py:109-121 | calls of one key admitted from time t to t + T number at most capacity + rate * T, among calls of any other keys |
| TokenBuckets.BalanceInRange | core/apigatewayv2_gateway.py:115-120 | a key's balance stays between zero and its capacity |
| TokenBuckets.AdmittedOnceRefilled | core/apigatewayv2_gateway.py:115-121 | after a refusal, with no admission of the key in between, a call is admitted if and only if the capacity is at least one token and the missing part of one has refilled |
| TokenBuckets.NeverAdmitted | core/apigatewayv2_gateway.py:115-121 | over any run a key whose capacity is below one token is never admitted |
| TokenBuckets.RetryAfterSuffices | core/app_context.py:1304-1316 | a refused tenant that waits `retry_after` is admitted then, and one that waits less is not, unless the wait was raised to its floor |
| TokenBuckets.Throttle.Allow | core/apigatewayv2_gateway.py:109-121 | no limit without rate and burst, else one bucket step with the defaults for a missing rate or burst |
| TokenBuckets.TenantLimiter.RateLimit | core/app_context.py:1299-1316 | unlimited for a rate of zero or less, else one bucket step and the wait to announce |
| TokenBuckets.BurstExactly | core/apigatewayv2_gateway.py:115-121 | a new key starts full: of its calls at one time exactly as many are admitted as the capacity holds whole tokens, whatever calls other keys make |
| TokenBuckets.RefillsExactly | core/apigatewayv2_gateway.py:115-121 | what a call finds is what the last call of its key left plus rate times the time since, at most the capacity, whatever other keys do |
| TokenBuckets.RouteBurst | core/apigatewayv2_gateway.py:109-121 | a route's first calls at one time are admitted as far as its burst goes, whatever its rate, and with the rate missing too |
| TokenBuckets.TenantBurst | core/app_context.py:1299-1316 | a tenant's first calls at one time are admitted up to four times its rate |
| RouteSelection.RouteMatch | core/apigatewayv2_core.py:657-684 | the loop returns the first of the highest-scoring routes that match, with its captures; the first default route only when none matches; nothing only when there is neither |
| RouteSelection.MatchesExactly | core/apigatewayv2_core.py:670-680 | a template matches a path if and only if some pieces its parts admit spell the path |
| RouteSelection.MatchIsLongest | core/apigatewayv2_core.py:670-680 | the captures are those of greedy matching: at the first difference from any other reading the match takes more |
| RouteSelection.ParamsRebuildPath | core/apigatewayv2_core.py:681-683 | with distinct parameter names, substituting the captures into the winning template rebuilds the normalised path |
| RouteSelection.ScoreIsPositive | core/apigatewayv2_core.py:681-682 | every template scores at least 10, above the default route, however many parameters it has |
| RouteSelection.DocumentedRanksExactly | core/apigatewayv2_core.py:657-684 | the chosen route is literal, has no greedy parameter, or names the verb, if and only if some matching route that does is ahead, by its points or by standing earlier at equal points, of every matching route that does not |
| RouteSelection.ChosenKindExactly | core/apigatewayv2_core.py:657-684 | the same for any property of routes |
| RouteSelection.LiteralLeadsExactly | core/apigatewayv2_core.py:670-682 | of two matching routes the literal one scores more if and only if the other's parameter names do not outweigh what they capture, at two points a character, one more for a greedy and one less for a plain parameter, and one for naming the verb |
| RouteSelection.CatchAllCanBeatExact | core/apigatewayv2_core.py:658-682 | a catch-all and a literal route that both match, where the catch-all has the higher score |
| RouteSelection.GreedyCanBeatPlain | core/apigatewayv2_core.py:658-682 | two routes that both match, where the one with a greedy parameter has the higher score |
| RouteSelection.AnyCanBeatNamed | core/apigatewayv2_core.py:658-682 | two routes that both match, where the one for any verb has the higher score |
| RouteTemplates.SegmentsOfSpelling | core/apigatewayv2_core.py:671-671 | a template written as pieces without slashes, with any number of slashes before each and behind the last, is read as these pieces in order |
| RouteTemplates.SlashesDoNotMatter | core/apigatewayv2_core.py:671-671 | two templates that differ in slashes only match the same paths with the same captures |
| RouteTemplates.WrittenIsRead | core/apigatewayv2_core.py:672-677 | `{n}` is read as a parameter n, `{n+}` as a greedy one, and a literal as itself |
| RouteTemplates.ReadIsWritten | core/apigatewayv2_core.py:672-677 | every piece is read as a part it is written for: a parameter, a greedy one, or else itself |
| RouteTemplates.TemplateMeans | core/apigatewayv2_core.py:670-680 | a template matches a path if and only if some pieces admitted by its parts, in order, spell the path, and captures the greedy reading; one without parts matches the root alone |
| RouteTemplates.RouteMeans | core/apigatewayv2_core.py:667-680 | a route key of a verb, a blank and a template matches a request if and only if the verb is the request's or ANY and the template matches the path |
| RouteTemplates.ParamsMean | core/apigatewayv2_core.py:683-683 | each parameter name of a route gets the capture of its last part of that name |
| RouteTemplates.ParamsAreNamed | core/apigatewayv2_core.py:683-683 | and no other name gets one |
| RouteTemplates.NormalisedExactly | core/apigatewayv2_core.py:660-660 | a path is read as its inner text after one slash, however many slashes stand at its ends |
| RouteTemplates.EveryPathIsSpelled | core/apigatewayv2_core.py:660-660 | every path is an inner text without slashes at its ends, with slashes around it |
| NetworkAcls.EditPartitions | core/aws_console_detail.py:1885-1933 | after every edit of a VPC, accepted or refused, each subnet is in exactly one ACL, no ACL holds two entries of one number and direction, and every pointer names the ACL that lists it |
| NetworkAcls.AlwaysSound | core/aws_console_detail.py:1770-1782 | after every run of edits and subnet changes: no subnet is listed twice, listed subnets belong to the ACL's VPC, a VPC has at most one default ACL, no ACL holds two entries of one number and direction, and every pointer names the ACL that lists the subnet |
| NetworkAcls.PartitionLasts | core/aws_console_detail.py:1770-1782 | once every subnet of a VPC is in exactly one ACL, every request but the adding of a subnet to that VPC keeps it so |
| NetworkAcls.PartitionedSinceEdit | core/aws_console_detail.py:1885-1933 | over any run, after an edit of a VPC every subnet of it is in exactly one ACL until a subnet is added to it |
| NetworkAcls.AssociateMoves | core/aws_console_detail.py:1922-1932 | an accepted association leaves the subnet listed by the chosen ACL and, in the core model, pointing at it |
| NetworkAcls.AssociateKeepsOthers | core/aws_console_detail.py:1922-1933 | an accepted association leaves every other subnet of the VPC in the ACL that listed it |
| NetworkAcls.RuleEdits | core/aws_console_detail.py:1902-1921 | an accepted rule edit, also of a default ACL the request itself created, appends one entry of a number and direction that was not there, or removes exactly the entries of one number and direction |
| AclEdits.RenewalExactly | core/aws_console_detail.py:1770-1782 | renewing the default ACL makes one that allows all traffic both ways if the VPC has none, gives it exactly the VPC's subnets that no other ACL lists, in order, and changes nothing else |
| AclEdits.EditAnswersExactly | core/aws_console_detail.py:1885-1932 | an edit of an unknown VPC changes nothing; any other is answered for what is missing, then for what is forbidden, and one not accepted leaves the renewal of the default ACL alone |
| AclEdits.AddedRule | core/aws_console_detail.py:1902-1915 | an accepted rule stands last, with its number, direction, action and range as asked, its protocol by name, and its ports as given, the upper one being the lower if it is missing or 0 and none for all traffic |
| AclEdits.DeletedRules | core/aws_console_detail.py:1916-1921 | a deleted rule takes every rule of its number in its direction from its ACL, and no other |
| AclEdits.WithoutRuleInOrder | core/aws_console_detail.py:1919-1919 | the rules that stay keep their order |
| AclEdits.CreatedAcl | core/aws_console_detail.py:1888-1891 | a created ACL belongs to the VPC, is no default one and has neither subnets nor rules; of the others only lists of subnets change |
| AclEdits.DeletedAcl | core/aws_console_detail.py:1896-1901 | a deleted ACL goes, and every other one stays with its rules |
| NetworkAcls.VpcModel.FindDefaultAcl | core/aws_console_detail.py:1774-1774 | the first default ACL of the VPC in order |
| NetworkAcls.VpcModel.EnsureDefaultAcl | core/aws_console_detail.py:1770-1782 | creates the default ACL if there is none and gives it every subnet no other ACL lists |
| NetworkAcls.VpcModel.AssociateSubnet | core/aws_console_detail.py:1926-1932 | takes the subnet out of every list and appends it to the chosen one |
| NetworkAcls.VpcModel.ActOn | core/aws_console_detail.py:1888-1932 | one edit with its checks, in the order of the checks |
| NetworkAcls.VpcModel.UpdateSection | core/aws_console_detail.py:1885-1933 | renews the default ACL, edits and renews it again, and keeps every invariant |
| XmlText.EscapedIsPerCharacter | core/aws_console_detail.py:643-644 | the three replacements one after another escape each character once |
| XmlText.TripExactly | core/aws_console_detail.py:643-644 | text of XML characters, escaped and parsed, comes back with line ends normalised; stripped it is itself if and only if it has no carriage return and no outer white space |
| XmlText.IllegalDoesNotParse | core/aws_console_detail.py:742-745 | text with a character no document may hold makes the document unparseable |
| XmlText.StripExactly | core/aws_console_detail.py:753-757 | stripping cuts white space off both ends and leaves a text with none at its ends |
| XmlText.LineEnds | core/aws_console_detail.py:742-745 | a return, alone or with the line feed behind it, is read as one line feed, wherever it stands |
| BucketLifecycle.LifecycleRoundTrip | core/aws_console_detail.py:657-778 | the rules of an accepted lifecycle request come back from their document as they were, if and only if each id and prefix survives the trip |
| BucketCors.CorsRoundTrip | core/aws_console_detail.py:706-778 | the same for CORS rules, for each id, origin and header |
| BucketLifecycle.LifecycleRulesAccepted | core/aws_console_detail.py:657-685 | an accepted rule has a trimmed, non-empty id, a known status and only known storage classes |
| BucketLifecycle.CheckTransitions | core/aws_console_detail.py:671-680 | the loop over transitions returns them all, or fails at the first unknown class, bad number or too few days |
| BucketLifecycle.PrintRule | core/aws_console_detail.py:691-701 | one rule's element, its transitions and actions in printing order |
| BucketLifecycle.PrintLifecycle | core/aws_console_detail.py:688-703 | the loop over the rules prints the document |
| BucketLifecycle.ReadOneRule | core/aws_console_detail.py:766-777 | the loop over a rule's children collects its actions |
| BucketLifecycle.ReadLifecycle | core/aws_console_detail.py:739-778 | the loop over the document's rules; an unparseable document has none |
| BucketCors.PrintCors | core/aws_console_detail.py:725-736 | the loop over CORS rules prints the document |
| BucketCors.ReadCorsDocument | core/aws_console_detail.py:739-765 | the loop over the document's CORS rules |
| BucketValidation.LifecycleRuleExactly | core/aws_console_detail.py:657-685 | a rule of a request is accepted as a given rule if and only if that one has its id or number, status and prefix, its expiration, noncurrent and abort days each in its own place, its transitions one for one, and some action |
| BucketValidation.LifecycleRuleRefused | core/aws_console_detail.py:657-685 | a rule is refused for its id, then its status, then a field, then for having no action |
| BucketValidation.LifecycleExactly | core/aws_console_detail.py:657-685 | a request is accepted as a given list if and only if the list honours its rules one for one |
| BucketValidation.LifecycleEndToEnd | core/aws_console_detail.py:657-778 | an accepted request, written as a document and read back, gives rules that honour the request, if ids and prefixes survive the trip |
| BucketValidation.CleanedExactly | core/aws_console_detail.py:707-710 | cleaning a list strips each entry and leaves out the blank ones, in order |
| BucketValidation.CorsRuleExactly | core/aws_console_detail.py:706-722 | a CORS rule of a request is accepted as a given rule if and only if that one has its id, its cleaned lists each in its own place, known methods, at least one method and origin, and its age |
| BucketValidation.CorsRuleRefused | core/aws_console_detail.py:706-722 | a CORS rule is refused for a missing method or origin, then for an unknown method, then for its age |
| BucketValidation.CorsExactly | core/aws_console_detail.py:706-722 | a CORS request is accepted as a given list if and only if the list honours its rules one for one |
| BucketValidation.CorsEndToEnd | core/aws_console_detail.py:706-765 | an accepted CORS request, written as a document and read back, gives rules that honour the request, if ids, origins and headers survive the trip |
| BucketReading.RuleReadsAs | core/aws_console_detail.py:766-777 | any Rule element is read with the first text of its id, status and prefix, Enabled for no status, the last number of each kind of action, and all transitions in order |
| BucketReading.RulesReadAs | core/aws_console_detail.py:757-778 | a document is read as its Rule elements, one for one, exactly if each of them reads |
| BucketReading.CorsReadsAs | core/aws_console_detail.py:758-765 | any CORSRule element is read with its id, the texts of its four kinds of children in order, and its age, exactly if the age is a number or missing |
| BucketReading.CorsRulesReadAs | core/aws_console_detail.py:757-765 | a document is read as its CORSRule elements, one for one, exactly if each of them reads |
| BucketReading.FindExactly | core/aws_console_detail.py:750-754 | the text of a tag is looked for in document order, the element itself first |
| BucketReading.DigitsReadExactly | core/aws_console_detail.py:763-777 | a text reads as a number exactly if it is a row of digits in which single underscores may stand between digits |
| BucketReading.SignsExactly | core/aws_console_detail.py:763-777 | one sign may stand before the digits, and a minus makes the number negative |
| Subscriptions.AdoptionExactly | core/azure_arm_core.py:107-132 | afterwards no key names a foreign subscription, a record under the space's own id keeps its content up to its mark, and any other key holds the first foreign record renamed to it |
| Subscriptions.EveryForeignKeyArrives | core/azure_arm_core.py:115-127 | the new key of every foreign record is present afterwards |
| Subscriptions.AdoptionIsIdempotent | core/azure_arm_core.py:107-132 | a second call moves nothing and changes nothing |
| Subscriptions.NothingLostExactly | core/azure_arm_core.py:118-127 | records before equal records after plus the foreign ones not moved, and none is lost if and only if no new key was taken by the space or by another foreign record |
| Subscriptions.SecondCopyLost | core/azure_arm_core.py:118-120 | a store of two foreign records of which one is left |
| Subscriptions.NoneLeft | core/azure_arm_core.py:122-123 | after the rewriting no id in a record's text names the old subscription, in any letter case |
| Subscriptions.FirstIdReplaced | core/azure_arm_core.py:122-123 | the first id of the old subscription becomes the space's, the text before it is unchanged and the text after it is rewritten likewise |
| Subscriptions.OtherTextKept | core/azure_arm_core.py:122-123 | text without an id of the old subscription is left as it is |
| Subscriptions.MovedTextIsClean | core/azure_arm_core.py:121-125 | the JSON text of a moved record holds no id of its old subscription |
| Adoption.ForeignExactly | core/azure_arm_core.py:104-115 | the keys adopted are exactly those that spell a subscription in any letter case and another one than the space's |
| Adoption.RenamedExactly | core/azure_arm_core.py:116-117 | such a key is renamed to the space's subscription with what follows as it is |
| Adoption.LettersExactly | core/azure_arm_core.py:104-115 | case is ignored letter by letter, and nothing else is |
| Adoption.AdoptedExactly | core/azure_arm_core.py:115-131 | under a foreign key stands nothing; a record that was there keeps its text, its mark put in the space's spelling unless empty; else the first foreign record renamed to the key arrives with its text rewritten and the space's mark if it had one |
| Adoption.AdoptedOrder | core/azure_arm_core.py:115-127 | the keys that keep their name come first, as they stood, then the new names that were free, in the order they come from |
| Subscriptions.SpaceState.AdoptForeign | core/azure_arm_core.py:107-132 | the loops over keys and records compute the adoption and return how many moved |
| Subscriptions.SpaceState.AdoptKey | core/azure_arm_core.py:117-127 | one key popped, and stored under its new name unless that is taken |
| Subscriptions.SpaceState.NormaliseMarks | core/azure_arm_core.py:129-131 | every record's mark gets the space's spelling |

## Left out

- Etags, generated names and ids: hashes and random values are injective or fresh; an etag is the counter value hashed into it.
- Time: one natural number or real per request; `_parse_dt`, time zones and the text of dates are not modelled, and a revision's `_at` is its `lastModified`.
- Header text: If-Match and If-None-Match are missing, `*` or one tag; stripping quotes and blanks from them is not modelled.
- Key-value listings, paging, field selection, the `keys`, `labels` and `revisions` views, conditional GET: they only read.
- Snapshot dates, size, retention, tags, and the order of the frozen list and of snapshot listings.
- The order in which a point-in-time read returns its items.
- ARM store records around the key-values (soft delete, keys, replicas) and the naming of ARM key-values.
- ConfigStore.TimeTravelExact: needs requests in clock order, as the log is searched by stamp.
- Resource ids are taken lower-cased and say what kind of record they name; the id of an IP configuration is the pair of its NIC and its name.
- NetworkGraph: what a payload adds to a record beside the fields of its kind is a step of its own, `PutRest`.
- Private addresses arrive as canonical text: the program compares texts, so that one sent as a JSON number or written otherwise is not seen as used.
- NSG back-references, management locks and resource-group deletion: the code does not keep the matching invariant on every path.
- NetworkConsistency.AlwaysConsistent: says nothing about network security groups, child resources deleted by prefix, or resource-group deletion.
- IPv6, and the fields of records that take no part in the graph; properties of an unexpected shape, and records without properties, on which the program fails; the candidates of a public IP, hashed from its id, are a parameter.
- ArmNetwork.Network.PutPip: a refused SKU is a parameter, and the SKU field already changed by then is not modelled.
- ArmNetwork.Network.PutVm: the record's other fields, its merge and its validation beyond the NIC references are one parameter.
- VirtualNetworks: DNS servers, peerings, service endpoints and delegations, which are one validity flag; subnet names are taken lower-cased.
- SpaceScope: tenant and provider arrive stripped and lower-cased, `get` and iteration are reads of the whole dictionary, and a nested value that is not a dictionary reads as an empty one.
- SpaceScope.Refinement: needs an active, non-empty space, one and the same for the whole run, and compares nested proxies of one service only when they share their default; its non-empty tenant and provider names hold of every request (`RequestsAreNamed`), and `RefinementAcrossSwitches` and `FallbackIsShared` say what happens otherwise.
- SpaceScope.RefinementAcrossSwitches: not for a switch to an empty record, which makes it a space of the default tenant and provider; spaces are made by pivots; creating one by hand, with its preset services, and renaming, pausing or deleting one are not steps of a run.
- ContainerApps: environments, secrets, registries, identities, jobs, custom domains, ingress ports and transports, endpoint fields and PATCH; their validation is one flag. The template is its hash plus its minimum of replicas.
- ContainerApps.ContainersConserved: counts a container as stopped when it was handed to stop; whether the stop succeeds is the runtime's.
- Concurrency: the lock around the tenant buckets makes each call one step; floats are reals.
- TokenBuckets.AdmissionBound: rate and capacity are fixed for the key over the interval.
- RouteSelection: methods and templates arrive as route keys; building and compiling the regular expression is replaced by the matching it stands for, and the stages, authorizers and integrations behind a route are not modelled.
- RouteSelection.LiteralLeadsExactly: for templates with one slash before each piece and no other; `DocumentedRanksExactly` covers all.
- NetworkAcls: the native EC2 calls on the same records, and listings; protocol names arrive lower-cased and ports as numbers or missing.
- NetworkAcls.AlwaysSound: not that every subnet is listed, which holds of a VPC from an edit on until a subnet is added to it (`PartitionedSinceEdit`).
- XML: tokenising, tags, namespaces and the declaration are the library's; a document is a tree whose texts are still escaped; entities other than the three that are printed, and character references, are not decoded.
- BucketLifecycle and BucketCors: the other bucket settings; the request's field names and types, and the upper-casing of CORS methods; digits in documents are ASCII, where the reader takes those of any script.
- Subscriptions: letter case is that of ASCII letters, a record is its JSON text and its `_sub` mark, and a mark of null counts as missing.
- Subscriptions.MovedTextIsClean: of the text, for subscription names without a double quote; JSON writes a quote, a backslash, a control or a non-ASCII character with an escape, so a name that holds one is not found in the text and stays.
- RDS, SQS, KMS and DynamoDB validators, console views, SigV4 routing, Lambda execution and other engines of the repository are not part of this model.
