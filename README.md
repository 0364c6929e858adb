# unifi-ipmanager, modelled in Dafny

This project models the parts of unifi-ipmanager that compute something.
unifi-ipmanager is a small web service that hands out fixed IP addresses
and DNS names to clients of a UniFi network controller. The parts modelled
are these.

- **The IP group allocator**, in two versions:
  - `Unifi.IpManager/Services/IpService.cs` with its cooldown cache;
  - `unifi.ipmanager/Services/IpService.cs` without one.

  A group is a named list of blocks of last octets. The allocator scans
  them first-fit and returns `192.168.1.<n>`, skipping addresses already in
  use and, in the newer version, addresses whose cooldown key is still in
  the distributed cache. Releasing an address starts its cooldown.
  Classification reads the last octet of the leftmost dotted quad in a
  string and names the first group that holds it. Allocation reads a block
  as `[min, max)`; classification reads it as `[min, max]`. The model keeps
  that asymmetry and proves where it shows. The classification code is the
  same in both versions (`unifi.ipmanager/Services/IpService.cs:52-70`), so
  one model covers both.
- **Cluster DNS**, in two versions:
  - `Unifi.IpManager/Services/ClusterDnsService.cs` builds `cp-<name>` and
    `tfx-<name>` A records, reads a cluster back by host-name prefix, and
    reconciles existing records against requested ones with create, update
    and delete calls;
  - the older `unifi.ipmanager/Controllers/ClusterDnsController.cs` reads a
    cluster by host name and diffs incoming records against existing ones.

  The DNS backend is a parameter: a function answering each call. For the
  older controller a host-name query answers records, null, or an
  `ApiException`. The older tree's own `DnsService` answers null whenever
  the DNS API throws (`unifi.ipmanager/Services/DnsService.cs:98-115`). The
  controller then calls `ToList()` on that null, and the
  `ArgumentNullException` escapes the action.
- **The small helpers around these**:
  - `GetDomainFromHostname`;
  - the DNS record converters;
  - `UniNote.Update`;
  - the `ServiceResult` state machine;
  - in both `UnifiService.cs` files: MAC address generation and its
    uniqueness loop, client-list normalisation, the fixed-IP choice at
    provisioning, the cooldown started by `DeleteClient`, and the old
    `SetBit`/`UnsetBit`.

Each piece keeps the source's form. Objects whose fields change are classes:

- `IpService` with its cache map;
- `ServiceResult`;
- `UniNote`;
- `UniClient`.

Loops are methods proved against specification functions, and the
properties are lemmas about those functions. C# null references are
`Option` values; interpolating a null gives the empty string. Time is an
integer number of minutes passed in as `now`. Random draws are passed in
too. LINQ's `Where` is stated once, in `selections.dfy`: the list it keeps
is the input at strictly increasing positions, and those are exactly the
positions of the elements that pass.

Some copies in the older tree behave exactly like the newer ones, so one
model covers both:

- `ServiceResult`: `unifi.ipmanager/Models/DTO/ServiceResult.cs:6-54` is
  the same as the newer file;
- `UniNote.Update`: `unifi.ipmanager/Models/Unifi/UniNote.cs:10-26` is the
  same as the newer file;
- `GenerateMacAddress`: `unifi.ipmanager/Services/UnifiService.cs:456-478`
  matches the newer version with its commented-out lines left out;
- client normalisation: `unifi.ipmanager/Services/UnifiService.cs:63-75`.

Two facts about allocation and release that the model keeps:

- There is no allocator driven by a network's subnet or DHCP start. Every
  address comes from the group allocator above.
- `ReturnIpAddress` does not check its argument
  (`Unifi.IpManager/Services/IpService.cs:73-84`):
  - `ReturnIpAddress(null)` reads the key `"Unifi.IpManager.IpCooldown."`;
  - when that key is not live, `Encoding.UTF8.GetBytes(null)` throws
    `ArgumentNullException`;
  - `ReturnIpAddress("")` stores an empty value under that same key.

## Model

| member | source | states |
|---|---|---|
| IpGroups.FindGroup | Unifi.IpManager/Services/IpService.cs:23 | the group found is the first whose name equals the requested one; none exactly when no group has that name |
| IpGroups.AddressOfInjective | Unifi.IpManager/Services/IpService.cs:39 | distinct octets give distinct addresses `192.168.1.<n>` |
| IpGroups.CandidateInBlock | Unifi.IpManager/Services/IpService.cs:34-37 | the scan visits exactly the octets n with min <= n < max of some block of the group |
| IpGroups.FirstFreeSpec | Unifi.IpManager/Services/IpService.cs:34-46 | first fit returns nothing exactly when every candidate is used or cooling; otherwise it returns a free candidate, and every earlier one is taken |
| IpGroups.Allocate | Unifi.IpManager/Services/IpService.cs:21-51 | an unknown or null group name allocates ""; an address handed out is neither in the used list nor in cooldown |
| IpGroups.AllocatedAddressIsFree | Unifi.IpManager/Services/IpService.cs:34-42 | a non-empty allocation is `192.168.1.<n>` with min <= n < max for a block of the named group; it is not in the used list, and its cooldown key is not live |
| IpGroups.AllocationIsFirstFit | Unifi.IpManager/Services/IpService.cs:34-46 | the allocation is the k-th candidate in block order, then ascending octet, and all k earlier candidates are taken |
| IpGroups.AllocationEmptyIffExhausted | Unifi.IpManager/Services/IpService.cs:30-50 | the allocation is "" exactly when the group is unknown or every octet of every block is taken |
| IpGroups.AllocationNeverAtMaxAlone | Unifi.IpManager/Services/IpService.cs:37 | an octet outside every block's [min, max), in particular a lone block's max, is never handed out |
| IpGroups.CooledAddressNotAllocated | Unifi.IpManager/Services/IpService.cs:40 | an address whose cooldown key is live is never allocated |
| IpGroups.LeftmostFromSome | Unifi.IpManager/Services/IpService.cs:60 | the regex match used starts at a position where the pattern matches, and it matches at no earlier position |
| IpGroups.LastOctetIsLeftmost | Unifi.IpManager/Services/IpService.cs:60-64 | there is no match exactly when the pattern matches at no position; otherwise the fourth group comes from the leftmost match |
| IpGroups.WhitespaceHasNoQuad | Unifi.IpManager/Services/IpService.cs:55-60 | a blank string holds no dotted quad, so the blank test adds only the null case |
| IpGroups.FirstContaining | Unifi.IpManager/Services/IpService.cs:69 | the group found is the first with a block where min <= octet <= max, both ends inclusive; none when no group has one |
| IpGroups.ClassifyUnmatched | Unifi.IpManager/Services/IpService.cs:55-64 | null, blank, or no dotted quad anywhere classifies as "" |
| IpGroups.GroupForAddress | Unifi.IpManager/Services/IpService.cs:53-71 | null and blank addresses are unclassified; a non-empty answer names a configured group with a block holding the address's last octet |
| IpGroups.ClassifyFirstInclusive | Unifi.IpManager/Services/IpService.cs:66-70 | a quad whose last octet is held inclusively by group k, and by no earlier group, classifies as group k |
| IpGroups.LastOctetOfAddress | Unifi.IpManager/Services/IpService.cs:60-66 | for n <= 999, the last octet read from `192.168.1.<n>`, followed by text that does not start with a digit, is the decimal text of n |
| IpGroups.ClassifyAddressOf | Unifi.IpManager/Services/IpService.cs:53-70 | for n <= 999, an allocator-style address classifies as the first group that holds its octet inclusively, or "" |
| IpGroups.TrailingOctetIgnored | Unifi.IpManager/Services/IpService.cs:60 | the unanchored pattern reads `192.168.1.100.1` by its first quad, so it classifies like `192.168.1.100` |
| IpGroups.MaxClassifiedButNotAllocated | Unifi.IpManager/Services/IpService.cs:37-69 | with one block, `192.168.1.<max>` classifies into the group, yet the group never allocates it |
| Cooldown.CooldownKey | Unifi.IpManager/Services/IpService.cs:92-95 | the address can be read back from its key `Unifi.IpManager.IpCooldown.<ip>`; a null address lands on the bare prefix, the same key as "" |
| Cooldown.KeyInjective | Unifi.IpManager/Services/IpService.cs:19 | two addresses never share a cooldown key |
| IpService.IpService.constructor | Unifi.IpManager/Services/IpService.cs:12-17 | the service holds the configured groups, the cooldown minutes and the given cache |
| IpService.IpService.IpInCooldown | Unifi.IpManager/Services/IpService.cs:86-90 | an address is in cooldown exactly when a read of its key at `now` finds an unexpired entry |
| IpService.IpService.GetUnusedGroupIpAddress | Unifi.IpManager/Services/IpService.cs:21-51 | the 100-pass nested scan returns the first-fit allocation against the keys live at `now`; the warning names the group exactly when a known group is exhausted |
| IpService.IpService.ReturnIpAddress | Unifi.IpManager/Services/IpService.cs:73-84 | the new cache is the release of the old one; it throws exactly for a null address whose key is not live (absent or expired) |
| IpService.ReleasedAddressNotReallocated | Unifi.IpManager/Services/IpService.cs:75-83 | after a release, and until its expiry, the key is live and the allocator skips that address |
| IpService.ReleaseLapses | Unifi.IpManager/Services/IpService.cs:81 | once now + minutes has passed, the release no longer affects which keys are live |
| IpService.ReleaseDoesNotExtend | Unifi.IpManager/Services/IpService.cs:77-78 | releasing an address whose key is live changes nothing and does not throw |
| IpService.ReleaseIdempotent | Unifi.IpManager/Services/IpService.cs:77-83 | releasing twice is releasing once |
| IpService.ReleaseFrame | Unifi.IpManager/Services/IpService.cs:82 | no key other than the released address's key changes |
| IpService.ReleasedEntryNamesAddress | Unifi.IpManager/Services/IpService.cs:82 | the stored entry decodes as UTF-8 back to the address, expires at now + minutes, and its key leads back to the address |
| LegacyIpService.GetUnusedGroupIpAddress | unifi.ipmanager/Services/IpService.cs:20-50 | the cache-free scan returns the first candidate not in the used list, "" for an unknown or exhausted group, and the warning exactly when a known group is exhausted |
| LegacyIpService.FirstOctetWhenUnlisted | unifi.ipmanager/Services/IpService.cs:33-42 | when the first block's min address is unused, that address is the allocation |
| StringExtensions.GetDomainFromHostname | Unifi.IpManager/Extensions/StringExtensions.cs:8-17 | it throws ArgumentException("Invalid hostname", "hostname") exactly for null or blank names; a domain other than the name itself is what follows the name's first '.', and still contains a '.' |
| StringExtensions.ShortNameIsOwnDomain | Unifi.IpManager/Extensions/StringExtensions.cs:15-16 | a name with at most one dot is returned unchanged |
| StringExtensions.DomainDropsFirstLabel | Unifi.IpManager/Extensions/StringExtensions.cs:15-16 | with two or more dots, the result is everything after the first dot, with empty labels kept |
| StringExtensions.DomainIsSuffix | Unifi.IpManager/Extensions/StringExtensions.cs:16 | the result is a suffix of the name; when a label is dropped, it is shorter and has one dot fewer |
| Text.JoinSplit | Unifi.IpManager/Extensions/StringExtensions.cs:15-16 | joining a split on the same separator gives the string back |
| Text.SplitCount | Unifi.IpManager/Extensions/StringExtensions.cs:15 | a split has one more piece than there are separators |
| Text.ParseNatToString | Unifi.IpManager/Services/IpService.cs:66 | int.Parse of a number's decimal text gives the number back |
| Text.IntToStringInjective | Unifi.IpManager/Services/IpService.cs:39 | different integers format differently |
| Text.Utf8RoundTrip | Unifi.IpManager/Services/IpService.cs:82 | the UTF-8 bytes stored for a string decode back to its characters |
| Text.Utf8Ascii | Unifi.IpManager/Services/IpService.cs:82 | an ASCII address is stored as one byte per character, each byte equal to its character code |
| Text.ToUpperNoLower | Unifi.IpManager/Services/UnifiService.cs:439 | upper-casing text with no lower-case letter leaves it unchanged |
| HostRecords.ToUniHostRecord | Unifi.IpManager/Models/DTO/HostRecordExtensions.cs:7-21 | the controller record is enabled with zero port, priority, TTL and weight; converting it back keeps id, host name, address and type, clears the MAC and the device lock, and changes nothing else |
| HostRecords.FromUniHostRecord | Unifi.IpManager/Models/DTO/HostRecordExtensions.cs:23-33 | a converted controller record is never device-locked and has no MAC; id, key, value and type carry over |
| HostRecords.UniRecordRoundTrip | Unifi.IpManager/Models/DTO/HostRecordExtensions.cs:7-33 | ToUniHostRecord(ToHostDnsRecord(u)) keeps id, key, value and type; it sets enabled and zeroes port, priority, TTL and weight, and changes nothing else |
| HostRecords.FromDeviceRecord | Unifi.IpManager/Models/DTO/HostRecordExtensions.cs:35-45 | a converted device record is an A record, locked, with no id, keeping the device's name, address and MAC; it never equals a converted controller record |
| ServiceResults.RunAppendsErrors | Unifi.IpManager/Models/DTO/ServiceResult.cs:32-53 | after any sequence of calls, the errors are the old ones followed by each failure's errors in call order; messages never change |
| ServiceResults.RunLastMarkWins | Unifi.IpManager/Models/DTO/ServiceResult.cs:32-53 | the success flag is decided by the last call alone, so a success after failures reports success while still carrying their errors |
| ServiceResults.RunKeepsDataWithoutValue | Unifi.IpManager/Models/DTO/ServiceResult.cs:8-12 | only MarkSuccessful(data) changes Data |
| ServiceResults.ServiceResult.constructor | Unifi.IpManager/Models/DTO/ServiceResult.cs:26-30 | a fresh result is unsuccessful, with no errors, no messages and no data |
| ServiceResults.ServiceResult.MarkSuccessful | Unifi.IpManager/Models/DTO/ServiceResult.cs:32-35 | sets success and leaves the errors alone |
| ServiceResults.ServiceResult.MarkSuccessfulWith | Unifi.IpManager/Models/DTO/ServiceResult.cs:8-12 | MarkSuccessful, then Data := data |
| ServiceResults.ServiceResult.MarkFailedWithException | Unifi.IpManager/Models/DTO/ServiceResult.cs:37-41 | appends ex.Message and clears success |
| ServiceResults.ServiceResult.MarkFailed | Unifi.IpManager/Models/DTO/ServiceResult.cs:43-47 | appends the one message and clears success |
| ServiceResults.ServiceResult.MarkFailedWithAll | Unifi.IpManager/Models/DTO/ServiceResult.cs:49-53 | appends every error in order and clears success, even for an empty list |
| UniNotes.MergeNothing | Unifi.IpManager/Models/Unifi/UniNote.cs:20-36 | Update(null), or a note with every property null, changes nothing |
| UniNotes.Merged | Unifi.IpManager/Models/Unifi/UniNote.cs:20-36 | Update(null) changes nothing; each property ends up as the argument's or the old one, and a property that is set is never cleared |
| UniNotes.MergeIdempotent | Unifi.IpManager/Models/Unifi/UniNote.cs:22-35 | applying the same notes twice is applying them once |
| UniNotes.MergeComposes | Unifi.IpManager/Models/Unifi/UniNote.cs:22-35 | two updates in a row equal one update where, for each property, the last non-null value wins |
| UniNotes.MergeOverwritesSetProperties | Unifi.IpManager/Models/Unifi/UniNote.cs:22-35 | each non-null property of the argument overwrites, each null one keeps the old value; a fully set note replaces the old one |
| UniNotes.UniNote.Update | Unifi.IpManager/Models/Unifi/UniNote.cs:20-36 | this note becomes the merge of its old value with the argument's old value; only this note changes, even when the argument aliases it |
| ClusterDnsService.AnyStartsWithSpec | Unifi.IpManager/Services/ClusterDnsService.cs:99 | Any throws only on a null host name met before a match; otherwise it answers whether some host name has the prefix |
| ClusterDnsService.WhereStartsWithSpec | Unifi.IpManager/Services/ClusterDnsService.cs:112-113 | Where throws exactly when some host name is null; otherwise it keeps exactly the records with the prefix |
| ClusterDnsService.WhereStartsWithKeepsOrder | Unifi.IpManager/Services/ClusterDnsService.cs:112-113 | what Where keeps is the records with the prefix in their order in the fetched list, each as often as it occurs: the fetched list at strictly increasing positions that are exactly those of the matching records |
| ClusterDnsService.GetPassesFetchErrors | Unifi.IpManager/Services/ClusterDnsService.cs:89-96 | a failed fetch fails the read with the fetch's errors |
| ClusterDnsService.GetNullListFails | Unifi.IpManager/Services/ClusterDnsService.cs:99 | a successful fetch with a null list fails the read with the ArgumentNullException message of Any, not the null-reference one |
| ClusterDnsService.GetClusterDns | Unifi.IpManager/Services/ClusterDnsService.cs:82-140 | a read succeeds exactly when it carries a cluster, which then has the requested name and both lists present, and no errors |
| ClusterDnsService.GetNullHostnameFails | Unifi.IpManager/Services/ClusterDnsService.cs:99-137 | a null host name anywhere fails the read with the null-reference message |
| ClusterDnsService.GetNeedsControlPlane | Unifi.IpManager/Services/ClusterDnsService.cs:99-106 | with no host name starting `cp-<name>`, the read fails with "No control plane records found for the specified cluster." |
| ClusterDnsService.GetSplitsByPrefix | Unifi.IpManager/Services/ClusterDnsService.cs:108-126 | otherwise the read succeeds: the control plane is exactly the `cp-<name>` records and the traffic exactly the `tfx-<name>` ones, each in fetched order and with fetched multiplicity; a blank zone becomes the first control-plane host's domain, and that call never throws |
| ClusterDnsService.BuiltRecordsHavePrefix | Unifi.IpManager/Services/ClusterDnsService.cs:33-51 | every record built for a cluster has a host name carrying its host's prefix |
| ClusterDnsService.ClusterRecords | Unifi.IpManager/Services/ClusterDnsService.cs:29-51 | one A record without an id per address, control-plane addresses first and then traffic ones, in input order; a control-plane record's host name is `cp-<name>.<zone>` and a traffic record's `tfx-<name>.<zone>` (null interpolating as empty) |
| ClusterDnsService.GetOfSeparatedRecords | Unifi.IpManager/Services/ClusterDnsService.cs:108-126 | control-plane records followed by traffic records, with a zone given, read back as exactly those two lists in order |
| ClusterDnsService.CreatedClusterReadsBack | Unifi.IpManager/Services/ClusterDnsService.cs:29-51 | reading back exactly the records CreateClusterDns builds gives the request's control plane and traffic in input order |
| ClusterDnsService.NeighbouringClusterIsClaimed | Unifi.IpManager/Services/ClusterDnsService.cs:99-113 | the prefix test does not stop at the name, so cluster "a" claims cluster "ab"'s `cp-ab` record |
| ClusterDnsService.FindById | Unifi.IpManager/Services/ClusterDnsService.cs:203 | the record found is in the list and carries the id; none exactly when no record has the id, two null ids counting as equal |
| ClusterDnsService.FindByIdFirst | Unifi.IpManager/Services/ClusterDnsService.cs:203 | the record found is the first with the id |
| ClusterDnsService.CreatesSpec | Unifi.IpManager/Services/ClusterDnsService.cs:191-198 | the first loop issues only creates, one for each requested record whose id is blank |
| ClusterDnsService.SyncsSpec | Unifi.IpManager/Services/ClusterDnsService.cs:200-223 | the second loop issues one call per existing record, in order: an update with the first requested record carrying its id, else a delete of that id |
| ClusterDnsService.PlanCreatesExactlyUnidentified | Unifi.IpManager/Services/ClusterDnsService.cs:191-198 | the plan creates r exactly when r is requested and its id is blank |
| ClusterDnsService.PlanDeletesExactlyUnrequested | Unifi.IpManager/Services/ClusterDnsService.cs:214-222 | the plan deletes an id exactly when an existing record has it and no requested record does |
| ClusterDnsService.PlanUpdatesFirstWithId | Unifi.IpManager/Services/ClusterDnsService.cs:203-213 | the plan updates with r exactly when an existing record has r's id and r is the first requested record with it |
| ClusterDnsService.PlanShape | Unifi.IpManager/Services/ClusterDnsService.cs:185-224 | creates come first; then exactly one update or delete per existing record, in order, naming that record's id |
| ClusterDnsService.NullIdIsCreatedAndUpdated | Unifi.IpManager/Services/ClusterDnsService.cs:191-213 | an existing and a requested record that both have a null id give a create and then an update of the same record |
| ClusterDnsService.ProcessHostDnsRecords | Unifi.IpManager/Services/ClusterDnsService.cs:185-225 | with both lists present it issues exactly the plan's calls; success means every call was accepted, and the errors are the rejected calls' errors in call order. A null requested list throws before any call; a null existing list throws after the creates |
| ClusterDnsService.CreateClusterDns | Unifi.IpManager/Services/ClusterDnsService.cs:24-80 | a null address list fails with the null-reference message and submits nothing; otherwise every built record is submitted once, even after a rejection, and the result fails with no errors if any create failed, and otherwise is the read-back |
| ClusterDnsService.UpdateClusterDns | Unifi.IpManager/Services/ClusterDnsService.cs:142-182 | a cluster that cannot be read fails with "Cluster <name> does not exist."; a null control-plane list fails with the ArgumentNullException message before any call, and a null traffic list does so after the control-plane calls; otherwise both lists are reconciled, success reads the cluster back, and failure carries both lists' errors, control plane first |
| ClusterDnsController.Get | unifi.ipmanager/Controllers/ClusterDnsController.cs:43-79 | a null answer from the control-plane query, or from the traffic query after a listed control-plane answer, lets ToList's ArgumentNullException escape; otherwise it succeeds exactly when both queries return records. A success carries the cluster under the requested name with the two answers as its lists and the zone asked for, or, when that is blank, the first control-plane record's zone (null with no control-plane records). A failure carries no cluster and, as its one error, the message of the first query's ApiException |
| ClusterDnsController.ServiceLookup | unifi.ipmanager/Services/DnsService.cs:98-115 | the repository's DnsService never throws from a host-name query: it answers the client's records when the client succeeds, queried with a null zone as "", and null when the client throws an ApiException |
| ClusterDnsController.ServiceFailureEscapes | unifi.ipmanager/Controllers/ClusterDnsController.cs:46-77 | with that DnsService, Get never returns a failure: it escapes with the ArgumentNullException exactly when one of the two client queries threw, so the `catch (ApiException)` and Put's "does not exist" branch are unreachable |
| ClusterDnsController.MatchesIsEquality | unifi.ipmanager/Controllers/ClusterDnsController.cs:108-110 | the four-property test is equality of the modelled records |
| ClusterDnsController.UnmatchedSpec | unifi.ipmanager/Controllers/ClusterDnsController.cs:105-147 | each diff loop keeps exactly the records with no match on the other side, never more records than it reads |
| ClusterDnsController.UnmatchedSelf | unifi.ipmanager/Controllers/ClusterDnsController.cs:105-147 | a list diffed against itself leaves nothing |
| ClusterDnsController.DiffPartitions | unifi.ipmanager/Controllers/ClusterDnsController.cs:105-147 | a record is created exactly when it is incoming with no existing match in its list, and removed exactly when it exists with no incoming match |
| ClusterDnsController.PutOfExistingIsEmpty | unifi.ipmanager/Controllers/ClusterDnsController.cs:105-160 | putting the cluster that exists creates nothing and deletes nothing |
| ClusterDnsController.Diff | unifi.ipmanager/Controllers/ClusterDnsController.cs:105-147 | a null incoming list throws; otherwise the four loops give the unmatched incoming records, control plane first, and the unmatched existing records, control plane first |
| ClusterDnsController.Put | unifi.ipmanager/Controllers/ClusterDnsController.cs:83-180 | an exception escaping the first read escapes Put before any change; a cluster that cannot be read fails with "Cluster <name> does not exist."; a null incoming list lets a NullReferenceException escape before any change; otherwise one bulk create is made only when there is something to create, every removal is deleted, and the response is the read-back, including an exception escaping it, exactly when all succeeded, else a failure |
| ClusterDnsController.Post | unifi.ipmanager/Controllers/ClusterDnsController.cs:183-234 | a null address list lets a NullReferenceException escape with no bulk call; otherwise one A record per control-plane address under `cp-<name>`, then one per traffic address under `tfx-<name>`, all in the request's zone and submitted in one bulk call; on success the response is the read-back, including an exception escaping it |
| ClusterDnsController.PostedClusterReadsBack | unifi.ipmanager/Controllers/ClusterDnsController.cs:188-221 | with a DNS service that answers each host name with the records stored under it, a posted cluster reads back with exactly its control-plane and traffic records, and with the request's zone when it has a control plane |
| UnifiService.NormaliseIdempotent | Unifi.IpManager/Services/UnifiService.cs:295-306 | normalising twice is normalising once, so a client listed twice ends up as if listed once |
| UnifiService.NormalisedName | Unifi.IpManager/Services/UnifiService.cs:297-300 | the name stays blank only when the host name is blank too; a non-blank name is kept; nothing else but the group changes |
| UnifiService.Normalised | Unifi.IpManager/Services/UnifiService.cs:295-306 | a fixed-IP client always ends up with a group; a name is never blanked; id, MAC, host name, fixed address and flags are untouched |
| UnifiService.FixedOnlySpec | Unifi.IpManager/Services/UnifiService.cs:307 | the filter keeps exactly the fixed-IP clients, in their fetched order and each as often as it occurs: the fetched list at strictly increasing positions that are exactly those of the fixed-IP clients |
| UnifiService.GetAllFixedIpClients | Unifi.IpManager/Services/UnifiService.cs:280-309 | a failed fetch returns nothing and touches no client; otherwise every client is normalised in place and the fixed-IP ones are returned in order, each with the group of its address |
| UnifiService.X2RoundTrip | Unifi.IpManager/Services/UnifiService.cs:433 | the two hex digits written for a byte read back as that byte |
| UnifiService.MacShape | Unifi.IpManager/Services/UnifiService.cs:425-440 | a generated address has 17 characters: `00:15:5D:` and three upper-case hex pairs separated by ':'; each pair reads back as its draw, so none is "FF" |
| UnifiService.MacInjective | Unifi.IpManager/Services/UnifiService.cs:429-439 | different draws give different addresses |
| UnifiService.LowercaseMacNeverCollides | Unifi.IpManager/Services/UnifiService.cs:200 | the ordinal uniqueness test never matches a client MAC written with a lower-case letter, even when it is the same hardware address |
| UnifiService.GenerateMacAddress | Unifi.IpManager/Services/UnifiService.cs:425-440 | the StringBuilder loop and ToUpper give the address of the three draws |
| UnifiService.FirstUnusedMacIsFirst | Unifi.IpManager/Services/UnifiService.cs:197-200 | the address kept is no client's MAC and comes from the first round whose address is unused |
| UnifiService.FirstUnusedMacNone | Unifi.IpManager/Services/UnifiService.cs:197-200 | no address is found exactly when every supplied round collides |
| UnifiService.NewMacAddress | Unifi.IpManager/Services/UnifiService.cs:197-200 | the do-while returns the first unused address over the supplied rounds |
| UnifiService.UsedIps | Unifi.IpManager/Services/UnifiService.cs:236 | the used list is every client's FixedIp, in order |
| UnifiService.AllocationBlankIffEmpty | Unifi.IpManager/Services/UnifiService.cs:236-237 | an allocation is blank exactly when it is "" |
| UnifiService.AssignFixedIp | Unifi.IpManager/Services/UnifiService.cs:234-241 | FixedIp is set only when a static IP is asked for and the allocator returned an address, and then it is that allocation |
| UnifiService.ProvisionedAddressIsFree | Unifi.IpManager/Services/UnifiService.cs:234-241 | a provisioned address is no existing client's FixedIp and is not in cooldown |
| UnifiService.DeleteClient | Unifi.IpManager/Services/UnifiService.cs:248-252 | the address is released exactly when the lookup succeeded and the client is noted and uses a fixed IP; otherwise the cache is unchanged |
| UnifiService.DeletedAddressCoolsDown | Unifi.IpManager/Services/UnifiService.cs:248-252 | a deleted noted fixed-IP client's address is not provisioned again until its cooldown ends |
| LegacyUnifiService.NewMacAddress | unifi.ipmanager/Services/UnifiService.cs:202-207 | the generate-then-while loop returns the first unused address over the supplied rounds, as the do-while does |
| LegacyUnifiService.AssignFixedIp | unifi.ipmanager/Services/UnifiService.cs:231-238 | fixed_ip is set only when a static IP is asked for and the cache-free allocator returned an address |
| LegacyUnifiService.SetBit | unifi.ipmanager/Services/UnifiService.cs:480-492 | for 0 <= n <= 7 bit n is set and the other seven kept; any other n gives 0 |
| LegacyUnifiService.UnsetBitAsWritten | unifi.ipmanager/Services/UnifiService.cs:494-507 | as written, for 0 <= n <= 7 the byte comes back unchanged; any other n gives 0 |
| LegacyUnifiService.BitNumberOutOfRange | unifi.ipmanager/Services/UnifiService.cs:480-507 | for n outside 0..7, both helpers return 0 |
| LegacyUnifiService.UnsetBitAsWrittenKeepsBit | unifi.ipmanager/Services/UnifiService.cs:494-499 | as written, UnsetBit returns its argument for every bit number in range: UnsetBit(0x80, 7) keeps bit 7 |
| LegacyUnifiService.UnsetBitSpec | unifi.ipmanager/Services/UnifiService.cs:494-507 | the corrected UnsetBit clears bit n and keeps the other seven |
| LegacyUnifiService.SetUnsetInverse | unifi.ipmanager/Services/UnifiService.cs:480-507 | with the corrected UnsetBit, setting and clearing the same bit undo each other up to that bit |

## Left out

- HTTP, JSON, logging and async: the UniFi controller API, the DNS services
  and the cache are reached through parameters. These are the fetched
  clients, the fetched records, the backend's answers and the cache map.
  The `await`s are sequential calls.
- The exceptions of the cluster DNS service and controller are modelled:
  - a failed fetch;
  - a null fetched list, which Any rejects with `ArgumentNullException`;
  - a null host name among the fetched records;
  - a null address or record list in a request body. The service catches
    what it throws; the older controller catches only `ApiException`, so
    there the `NullReferenceException` escapes the action;
  - `GetDomainFromHostname` throwing.

  An exception thrown by a backend call inside `CreateClusterDns` or
  `UpdateClusterDns`, or by the bulk create and delete calls of `Put` and
  `Post`, is not modelled: those calls always answer. The older
  controller's host-name query is the exception: it may answer records or
  null, or throw an `ApiException`, and all three are modelled.
- A request body that is missing altogether (a null `ClusterDns` or
  `NewClusterRequest`) is not modelled. Neither is a null element inside a
  record list, whose `Id` or `Hostname` the loops would dereference. The
  model's lists hold records, not null references.
- Concurrency: two allocations racing for one address have no sequential
  content.
- The cache is a map from key to bytes and absolute expiry. Expiry counts
  in whole minutes. Nothing else about the distributed cache is modelled.
  A cooldown setting of zero or less is allowed and then never keeps a key
  live. That holds only for the in-memory cache. When a `RedisCache`
  connection string is configured (`Unifi.IpManager/Program.cs:40-43`,
  `Unifi.IpManager/Startup.cs:58-61`), the Redis cache rejects an
  expiration that is not in the future with `ArgumentOutOfRangeException`.
  So `ReturnIpAddress` and `DeleteClient` throw there. The model has the
  in-memory behaviour only.
- The MAC loops of `ProvisionNewClient` are bounded by a finite list of
  draw rounds. Running out of rounds returns no address; the source loops
  until a fresh address comes up.
- `ToUpper` is culture-sensitive in .NET. It is modelled as ASCII
  upper-casing, which is all a hex string needs.
- `\d` in .NET also matches non-ASCII decimal digits, which `int.Parse`
  would then reject. The model reads ASCII digits only.
- `GetClient` and the other UniFi queries are HTTP plumbing, and so is the
  way the newer `GetAllFixedClients` merges fixed clients with devices.
  `UnifiService.GetAllFixedIpClients` models the newer private
  `GetAllFixedIpClients` (`Unifi.IpManager/Services/UnifiService.cs:280-309`),
  where a failed fetch returns the empty list. The older
  `GetAllFixedClients` (`unifi.ipmanager/Services/UnifiService.cs:52-82`)
  normalises each client the same way (`UnifiService.Normalised`). On a
  failed fetch it logs the error and goes on to fetch devices with no
  clients. That method as a whole is not modelled. `DeleteClient` takes the
  client its lookup found, and provisioning takes the fetched client list.
- `Text.StartsWith`: the host-name prefix tests of `GetClusterDns`
  (`Unifi.IpManager/Services/ClusterDnsService.cs:99, 112-113`) call
  `string.StartsWith(string)`, which compares with the current culture. It
  may ignore characters such as the soft hyphen U+00AD and treat some
  letter pairs as one letter. The model compares ordinally, character by
  character.
- `IpGroups.FindGroup`: a configured group's name is never null here. In
  the source, `Find(g => g.Name == name)` (`Unifi.IpManager/Services/IpService.cs:23`)
  lets a group configured without a name match a null requested name. The
  model answers "" for a null name, and `GroupForAddress` never returns a
  null group name.
- `ProvisionNewClient` goes on with a null client list after a failed
  fetch and so throws. The model takes a list that is present.
- The DNS records of the older controller carry only the four properties
  its diff compares.
- `ClusterDns` of the newer tree declares `List<DnsRecord>`, while its
  service reads and writes `HostDnsRecord`. The model follows the service.
- `SetBit` and `UnsetBit` are called only from commented-out lines. They
  are modelled as functions on their own.
- `LegacyUnifiService.UnsetBitSpec`: states the corrected behaviour, not
  the code as written (see Findings).

## Findings

| source | as written | input that shows it | evidently intended | confidence | as-written member | corrected member |
|---|---|---|---|---|---|---|
| unifi.ipmanager/Services/UnifiService.cs:498 | `UnsetBit` returns `b \| (0 << bitNumber)`, which is `b` | `UnsetBit(0x80, 7)` returns `0x80`, with bit 7 still set | `b & ~(1 << bitNumber)`, clearing the bit (the multicast bit its commented-out caller means to clear) | not executed | LegacyUnifiService.UnsetBitAsWrittenKeepsBit | LegacyUnifiService.UnsetBitSpec |
