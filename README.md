# Windows overlay network driver, modelled in Dafny

This project models the control plane of the Windows overlay network driver
(`drivers/windows/overlay`). The driver keeps a registry of overlay networks keyed
by network id. It creates each network in the Host Networking Service (HNS), with
one VSID (VXLAN id) policy per subnet. It persists each network as a JSON record in
a cluster store. At start-up it restores the overlay networks and their endpoints
that HNS already knows. It also reacts to node-discovery events: it starts a serf
cluster and joins it through a known neighbour. A failed join is retried on a later
event, and the local endpoint database is pushed at most once.

The model has eight modules, one file each:

- `Base` (base.dfy): Option, Result, collaborator outcomes, the driver's errors and
  their kinds (plain, BadRequest, Forbidden, Internal), and Go's `uint32`.
- `Text` (text.dfy): `strings.Split` and `strings.Join` with a one-character
  separator, decimal formatting, and `strconv.Atoi` with its int64 range.
- `Net` (net.dfy): IPv4 addresses and prefixes as (address, mask length), masking,
  `Contains`, and the parsing and printing of addresses and CIDR strings.
- `JsonModel` (json.dfy): JSON as an abstract value; a document is either parsed
  JSON or malformed. Object keys are matched to struct field names up to case, as
  `json.Unmarshal` matches them.
- `Record` (record.dfy): a network's persisted fields, the store record that `Value`
  writes, the decoding that `SetValue` does, `getMatchingSubnet`, and the store key.
- `Hns` (hns.dfy): the HNS network and endpoint descriptors, the HNS service as an
  oracle, and both translations: out to HNS (`createHnsNetwork`) and back into the
  driver (`convertToOverlayNetwork`, `convertToOverlayEndpoint`, the restore filters).
- `Discovery` (discovery.dfy): `validateSelf` and the join state machine that
  `nodeJoin` drives.
- `Overlay` (overlay.dfy): two classes, both updated in place.
  - `Network`: `SetValue`, `SetIndex`, `createHnsNetwork` and endpoint restore
    assign its fields.
  - `Driver`: holds the network registry (a `map` field), the optional store and the
    discovery state. Its methods `CreateNetwork`, `DeleteNetwork`, `network`,
    `restoreHNSNetworks` and `DiscoverNew` change them.

HNS, the store and serf are oracles passed in as values:

- HNS is a `Backend`. It answers a network create with a descriptor or an error, a
  delete with an outcome, and each listing with a list or an error. The same request
  always gets the same answer.
- The store is a map from keys to records and their indexes.
- Serf start and serf join are outcomes.
- `net.InterfaceAddrs()` is a listing.
- `net.ParseMAC` is a function parameter.

Most loops of the source are methods with a loop that is proved equal to a
specification function (recursive, except for the descriptor loop's comprehension);
the properties are proved about those functions. This covers
the VNI-list loop, `SetValue`'s subnet loop, the subnet and policy loops of
`convertToOverlayNetwork`, the descriptor loop of `createHnsNetwork`, the endpoint and
network restore loops, and `getMatchingSubnet`. The searches `contains`,
`getSubnetforIP`, the stale scan, the stale-delete loop and `validateSelf` are
specified instead by quantified contracts on their results. The generic-data label
loop is modelled by direct lookups of the four labels (`ReadLabels`): each iteration
tests for one label, so the map order does not matter.

The model follows the code where the code and the driver's stated design differ:

- An unknown id in `DeleteNetwork` is a Forbidden error, not a not-found error.
- Stale networks are deleted before the new network is inserted.
- The stale scan stops at the first network that owns a VNI. It records at most one
  network per new subnet.
- CreateNetwork's option, VNI-label and VNI-count errors come after the network
  already registered under the same id has been deleted. So only the empty-id and
  empty-pool errors leave the registry exactly as it was. The later errors leave
  every entry except `id` as it was.
- Restore overwrites a registry entry with the same name, whether or not it was
  already known.
- `createHnsNetwork` has no skip-if-already-created check.
- A failed `validateSelf` is only logged; the join still goes ahead.

## Model

| member | source | states |
|---|---|---|
| Text.JoinSplit | drivers/windows/overlay/ov_network_windows.go:118 | joining the pieces that `strings.Split` produces gives back the label value |
| Text.SplitPiecesFree | drivers/windows/overlay/ov_network_windows.go:118 | no piece of a split holds the separator |
| Text.SplitJoin | drivers/windows/overlay/ov_network_windows.go:118 | splitting separator-free pieces joined by the separator gives back those pieces |
| Text.DecRoundTrip | drivers/windows/overlay/ov_network_windows.go:120 | the decimal parser reads back every number's decimal rendering |
| Text.AtoiDec | drivers/windows/overlay/ov_network_windows.go:120 | `Atoi` reads back the decimal rendering of every number in the int64 range |
| Net.MaskIdempotent | drivers/windows/overlay/overlay_windows.go:132 | masking an address twice is masking it once |
| Net.NetworkOfAddress | drivers/windows/overlay/overlay_windows.go:132 | the network `ParseCIDR` returns is canonical and contains the parsed address |
| Net.ParseFormatIP | drivers/windows/overlay/ov_network_windows.go:400 | `ParseIP` reads back what `IP.String` printed, including the nil address |
| Net.ParseFormatCIDR | drivers/windows/overlay/ov_network_windows.go:399 | `ParseCIDR` reads back every printed prefix |
| Net.ParseFormatPrefix | drivers/windows/overlay/ov_network_windows.go:306 | a stored optional prefix parses back to itself; the nil prefix prints as `<nil>`, which parses back as nil |
| Record.Key | drivers/windows/overlay/ov_network_windows.go:291-297 | a network's store key is the key prefix `overlay/network` followed by its id |
| Record.MatchingSubnet | drivers/windows/overlay/ov_network_windows.go:460-476 | nil input gives nil; otherwise the first subnet with the same mask length and address, with only prefixed subnets before it; NilSubnetPrefix when a subnet with a nil prefix comes before any match (Go dereferences it there); nil when every subnet has a prefix and none matches |
| Record.ApplyFields | drivers/windows/overlay/ov_network_windows.go:369-384 | the scalar-field decoding writes only secure, providerAddress, interfaceName, hnsId and name |
| Record.DecodeItems | drivers/windows/overlay/ov_network_windows.go:389 | a decoded subnet-record array has one record per element |
| Record.DecodeEncodedSubnet | drivers/windows/overlay/ov_network_windows.go:305-309 | decoding a marshalled subnet record gives the record back |
| Record.DecodeEncodedItems | drivers/windows/overlay/ov_network_windows.go:302-313 | decoding the marshalled subnet list gives back every record, in order |
| Record.RebuildSubnets | drivers/windows/overlay/ov_network_windows.go:394-408 | the subnet loop on a new network rebuilds the written subnets: prefix, gateway and VNI, in order |
| Record.EncodeDecodeRoundTrip | drivers/windows/overlay/ov_network_windows.go:299-417 | decoding what `Value` wrote into a network without subnets restores its subnets and its secure, providerAddress, interfaceName, hnsId and name fields |
| Record.LegacyRoundTrip | drivers/windows/overlay/ov_network_windows.go:357-363 | a legacy bare subnet array decodes into the subnets and changes no other field |
| Record.MatchingIgnoresVni | drivers/windows/overlay/ov_network_windows.go:410-413 | overwriting one subnet's VNI does not change which subnet later records match |
| Record.ApplySubnetsInPlace | drivers/windows/overlay/ov_network_windows.go:409-414 | on a network that already has subnets, the loop adds and removes nothing and keeps every prefix and gateway; a VNI changes only on a subnet that `getMatchingSubnet` finds for some record, and then takes that record's VNI |
| Record.MatchingSameNetworks | drivers/windows/overlay/ov_network_windows.go:460-476 | two subnet lists with the same prefixes in the same places match alike |
| Record.SetValueKeepsExistingSubnets | drivers/windows/overlay/ov_network_windows.go:365-367 | `SetValue` on a network that has subnets never changes their number, prefixes or gateways, whatever the document |
| Hns.DescriptorShape | drivers/windows/overlay/ov_network_local_windows.go:14-43 | the descriptor has the network's name, type `overlay` and adapter name, and one HNS subnet per subnet in order; each HNS subnet has the printed prefix and gateway and exactly one policy, which decodes as VSID with the subnet's VNI |
| Hns.SubnetVni | drivers/windows/overlay/overlay_windows.go:119-124 | the policy loop yields the VNI of the policy scan specification |
| Hns.ConvertSubnets | drivers/windows/overlay/overlay_windows.go:118-142 | the subnet loop yields the subnet conversion specification |
| Hns.ConvertedSubnets | drivers/windows/overlay/overlay_windows.go:118-142 | the restored subnets number at most the HNS subnets, and each kept prefix is a canonical network |
| Hns.NilPolicyStops | drivers/windows/overlay/overlay_windows.go:121 | a null policy in any subnet makes the whole conversion fail |
| Hns.VsidPolicyFirst | drivers/windows/overlay/overlay_windows.go:119-124 | a leading VSID policy decides the subnet's VNI |
| Hns.NoPoliciesVniZero | drivers/windows/overlay/overlay_windows.go:119-128 | a subnet without policies is restored with VNI 0 |
| Hns.VsidCarriedOver | drivers/windows/overlay/overlay_windows.go:119-128 | because the policy struct is shared across the loop, a leading non-VSID policy that carries a VSID value sets the VNI, whatever follows, as long as no later policy is null or sets the VSID field |
| Hns.ConvertBuiltSubnet | drivers/windows/overlay/ov_network_local_windows.go:16-36 | one built HNS subnet converts back to its VNI, prefix and gateway |
| Hns.ConvertBuiltSubnets | drivers/windows/overlay/ov_network_local_windows.go:16-36 | converting back the subnets of a built descriptor gives every subnet back (prefix, gateway, VNI) in order, when every prefix is a network address |
| Hns.RestoreCreatedNetwork | drivers/windows/overlay/overlay_windows.go:108-145 | a network created with its id as name is restored with the same id and subnets, and the HNS id and management IP of the create response |
| Hns.ConvertToOverlayEndpoint | drivers/windows/overlay/overlay_windows.go:171-192 | nil exactly when the MAC does not parse; otherwise id, profile id, network id, remote flag, MAC, and the address with a /32 mask |
| Hns.RestoredEndpointsFilter | drivers/windows/overlay/overlay_windows.go:155-166 | every restored endpoint is a previous one, or a converted endpoint of this HNS network under its own name; every endpoint of this HNS network whose MAC parses is present |
| Hns.RestoredDescriptorsFilter | drivers/windows/overlay/overlay_windows.go:93-103 | the restored entries are exactly the overlay descriptors, each under its HNS name |
| Discovery.ValidateSelf | drivers/windows/overlay/overlay_windows.go:223-240 | a non-IP address fails; a failed address listing fails; otherwise success exactly when some interface address carries the advertised IP |
| Discovery.NeighbourRecorded | drivers/windows/overlay/overlay_windows.go:263-267 | another node's event records its address as the neighbour |
| Discovery.LatchedNoJoin | drivers/windows/overlay/overlay_windows.go:273-279 | while the join latch is closed no join runs and nothing is pushed |
| Discovery.StepPreserves | drivers/windows/overlay/overlay_windows.go:242-286 | each event runs the join at most once and pushes only after a successful join; the latch is closed exactly when the one push has happened |
| Discovery.RunPushesOnce | drivers/windows/overlay/overlay_windows.go:242-286 | over any sequence of events from a fresh driver, the local database is pushed at most once |
| Discovery.RetryAfterFailure | drivers/windows/overlay/overlay_windows.go:280-284 | a failed join reopens the latch, so the next event with serf up and a neighbour runs the join again |
| Overlay.Network.constructor | drivers/windows/overlay/ov_network_windows.go:263 | a network built from an id has blank fields, no endpoints and no driver |
| Overlay.Network.Create | drivers/windows/overlay/ov_network_windows.go:96-175 | the network CreateNetwork assembles: its id, name, HNS id label, interface name and subnets, no endpoints, the given driver, every other field zero |
| Overlay.Network.SetIndex | drivers/windows/overlay/ov_network_windows.go:336-339 | records the index and marks the record as existing |
| Overlay.Network.Value | drivers/windows/overlay/ov_network_windows.go:299-330 | the written record is the encoding of the network's fields |
| Overlay.Network.SetValue | drivers/windows/overlay/ov_network_windows.go:349-417 | the network's new fields and the error are those of the decoding specification applied to its old fields |
| Overlay.Network.SetFields | drivers/windows/overlay/ov_network_windows.go:369-384 | the scalar fields are decoded as the field specification says |
| Overlay.Network.ApplySubnetRecords | drivers/windows/overlay/ov_network_windows.go:394-415 | the subnets and the error are the subnet loop specification of the old subnets, including the stop at a nil prefix |
| Overlay.Network.Contains | drivers/windows/overlay/ov_network_windows.go:433-441 | true when a subnet holds the address and every subnet before it has a prefix; false when every subnet has a prefix and none holds it; NilSubnetPrefix when a subnet with a nil prefix comes before any that holds it |
| Overlay.Network.GetSubnetForIP | drivers/windows/overlay/ov_network_windows.go:444-457 | the first subnet of the same mask length that holds the address, with only prefixed subnets before it; none when every subnet has a prefix and none does; NilSubnetPrefix when a subnet with a nil prefix comes first |
| Overlay.Network.GetMatchingSubnet | drivers/windows/overlay/ov_network_windows.go:460-476 | the loop finds what the matching specification finds, including the nil-prefix error |
| Overlay.MatchingIsFirst | drivers/windows/overlay/ov_network_windows.go:464-475 | the search stops at the first subnet that matches or has a nil prefix |
| Overlay.Network.CreateHnsNetwork | drivers/windows/overlay/ov_network_local_windows.go:12-61 | posts the network's descriptor; on success takes the HNS id and management IP of the response, on failure changes nothing and returns the error |
| Overlay.Network.RestoreNetworkEndpoints | drivers/windows/overlay/overlay_windows.go:147-169 | a failed listing is returned with the endpoints unchanged; otherwise the endpoints are the restore specification of the listing |
| Overlay.VniValues | drivers/windows/overlay/ov_network_windows.go:118-126 | the VNI list is read exactly when every piece is an integer, piece i giving VNI i truncated to uint32; otherwise the error names a bad piece |
| Overlay.VniFirstError | drivers/windows/overlay/ov_network_windows.go:119-123 | the error names the first piece that is not an integer |
| Overlay.VniValuesStep | drivers/windows/overlay/ov_network_windows.go:125 | each integer piece appends its VNI |
| Overlay.ParseVniList | drivers/windows/overlay/ov_network_windows.go:118-126 | the VNI loop computes the VNI list specification |
| Overlay.VniListRoundTrip | drivers/windows/overlay/ov_network_windows.go:118-126 | VNIs written in decimal and joined by commas are read back unchanged |
| Overlay.CreateRequest | drivers/windows/overlay/ov_network_windows.go:103-134 | an accepted request has at least one VNI per pool |
| Overlay.BadVniRejected | drivers/windows/overlay/ov_network_windows.go:117-123 | a label with a non-integer piece is refused, naming the first such piece |
| Overlay.VnisAssigned | drivers/windows/overlay/ov_network_windows.go:136-144 | in an accepted request, subnet i has pool i, gateway i and the i-th listed VNI |
| Overlay.LoadWrittenRecord | drivers/windows/overlay/ov_network_windows.go:258-276 | a record written by `Value` loads back from the store with its fields, the store index, and the HNS id and address of the create response; a failed create loads nothing |
| Overlay.RegistryWithout | drivers/windows/overlay/ov_network_windows.go:234-238 | removing an entry keeps the registry keyed by id and its VNIs unique |
| Overlay.ReportIsScan | drivers/windows/overlay/ov_network_windows.go:146-159 | a scan report with owner witnesses is a stale scan |
| Overlay.StaleDeletedFreesVnis | drivers/windows/overlay/ov_network_windows.go:146-167 | deleting what the stale scan found leaves no network owning any new VNI, and keeps the registry keyed with unique VNIs |
| Overlay.AddUnownedNetwork | drivers/windows/overlay/ov_network_windows.go:182 | registering a network under a new id, when no network owns its VNIs, keeps the registry keyed with unique VNIs |
| Overlay.RestorableEach | drivers/windows/overlay/overlay_windows.go:93-103 | a listing can be restored exactly when every overlay descriptor in it converts |
| Overlay.RestoredNamesPrefix | drivers/windows/overlay/overlay_windows.go:93-103 | names restored from a prefix of the listing are restored from the whole listing |
| Overlay.Driver.constructor | drivers/windows/overlay/overlay_windows.go:46-66 | a driver starts with an empty registry, the store it was configured with, and the initial join state |
| Overlay.Driver.AddNetwork | drivers/windows/overlay/ov_network_windows.go:228-232 | inserts the network under its id |
| Overlay.Driver.DeleteNetworkEntry | drivers/windows/overlay/ov_network_windows.go:234-238 | removes exactly that id |
| Overlay.Driver.GetNetworkFromStore | drivers/windows/overlay/ov_network_windows.go:258-276 | null when there is no store, no record, an undecodable record or a failed HNS create; otherwise a fresh network with the loaded fields |
| Overlay.Driver.Lookup | drivers/windows/overlay/ov_network_windows.go:240-256 | returns the registry entry if present; otherwise a network loaded from the store, registered under the id with no endpoints and this driver |
| Overlay.Driver.DeleteNetwork | drivers/windows/overlay/ov_network_windows.go:195-218 | empty id is an error; an id neither registered nor loadable is Forbidden; a failed HNS delete is Forbidden and keeps the entry; otherwise exactly that id is removed; no other entry ever changes |
| Overlay.Driver.ScanStale | drivers/windows/overlay/ov_network_windows.go:146-160 | the id of a registered network that owns the VNI, or none when no network owns it |
| Overlay.Driver.ReadLabels | drivers/windows/overlay/ov_network_windows.go:109-128 | the label loop computes the label specification |
| Overlay.Driver.ScanSubnets | drivers/windows/overlay/ov_network_windows.go:136-163 | builds the new subnets in pool order and reports, for each, the owner of its VNI or none |
| Overlay.Driver.DeleteStale | drivers/windows/overlay/ov_network_windows.go:165-167 | entries not named stale, and the empty id, are untouched; a registered stale entry stays, unchanged, exactly when its HNS delete fails; any other named entry is gone unless a repeated id reloaded it from the store and that delete failed too; when HNS deletes succeed, exactly the named ids are removed |
| Overlay.Driver.RegisterNewNetwork | drivers/windows/overlay/ov_network_windows.go:182-190 | registers the new network, then creates it in HNS; on failure the id is removed again and the error is returned |
| Overlay.Driver.ClearStale | drivers/windows/overlay/ov_network_windows.go:136-167 | the new subnets and the stale scan of the registry; per stale id, the entry stays exactly when its HNS delete fails; when deletes succeed, the stale ids are removed and no remaining network owns a new VNI |
| Overlay.Driver.InstallNetwork | drivers/windows/overlay/ov_network_windows.go:136-192 | the stale scan runs on the registry before the insert; a stale entry other than the id stays exactly when its HNS delete fails; the name defaults to the id; a failed table registration returns its error and changes no entry the stale deletes did not (the id's own entry included); a failed HNS create leaves no entry for the id; success registers the network with the HNS id and address of the response |
| Overlay.Driver.DeleteExisting | drivers/windows/overlay/ov_network_windows.go:87-94 | a network already known under the id is deleted: a registered one stays, unchanged, exactly when its HNS delete fails, and one loaded from the store stays only when its delete fails; other entries are untouched |
| Overlay.Driver.CreateFromOption | drivers/windows/overlay/ov_network_windows.go:103-192 | option, label and VNI-count errors are returned with the registry unchanged; otherwise the stale scan runs on the registry, a failed table registration keeps the entry under the id unless the scan named it, and the network is installed and the HNS id label is written back |
| Overlay.Driver.CreateNetwork | drivers/windows/overlay/ov_network_windows.go:63-193 | an empty id or an empty or 0.0.0.0/0 pool fails with the registry unchanged; later errors change no entry other than the id and the stale ones; when the id's earlier network fails its HNS delete, a label error or a failed table registration keeps it registered unless the scan named the id; success maps the id to the new network; with HNS deletes succeeding, a registry keyed by id with unique VNIs stays so |
| Overlay.Driver.ConvertToOverlayNetwork | drivers/windows/overlay/overlay_windows.go:108-145 | a fresh network with id = HNS name, hnsId = HNS id, providerAddress = management IP, the converted subnets and no endpoints; null on a null policy |
| Overlay.Driver.RestoreOne | drivers/windows/overlay/overlay_windows.go:98-103 | null exactly when the descriptor does not convert, and then nothing changes; otherwise a fresh network converted from the descriptor, registered under its name with the endpoints HNS lists for it, every other entry unchanged |
| Overlay.Driver.RestoreNext | drivers/windows/overlay/overlay_windows.go:98-103 | one restore step keeps the restore's progress: the names held are those of the start plus the restored ones, other entries are as at the start, and each restored name holds its converted network |
| Overlay.Driver.RestoreHNSNetworks | drivers/windows/overlay/overlay_windows.go:85-106 | a failed listing is returned and changes nothing; otherwise exactly the overlay descriptors are restored under their names, with their endpoints; other entries are untouched |
| Overlay.Driver.RestoreListed | drivers/windows/overlay/overlay_windows.go:93-105 | the loop over the listed descriptors: success exactly when every overlay descriptor converts, then exactly those are registered under their names with their endpoints; a null policy stops it with NilVsidPolicy; entries under other names are untouched |
| Overlay.RestoreStops | drivers/windows/overlay/overlay_windows.go:98-101 | an overlay descriptor that does not convert makes the listing unrestorable, and every name restored before it is a name of the listing |
| Record.RebuildOne | drivers/windows/overlay/ov_network_windows.go:394-408 | on a new network one stored subnet record appends the subnet it was written from |
| Overlay.Driver.DeleteStaleId | drivers/windows/overlay/ov_network_windows.go:165-167 | one stale delete: a registered entry stays exactly when its HNS delete fails, an unregistered id can only stay as the network reloaded from the store, and no other entry changes |
| Record.ApplySubnetsStops | drivers/windows/overlay/ov_network_windows.go:394-415 | once a record stops the subnet loop, the later records change nothing |
| Record.PrefixedNeverStops | drivers/windows/overlay/ov_network_windows.go:409-414 | over subnets that all carry a prefix, no record stops the subnet loop |
| Record.InPlaceStep | drivers/windows/overlay/ov_network_windows.go:409-414 | a record whose VNI update goes through keeps the loop's in-place property |
| Record.DecodeLowerCaseKeys | drivers/windows/overlay/ov_network_windows.go:32-36 | keys match subnetJSON's fields whatever their letter case: `subnetip` and `vni` decode as SubnetIP and Vni, and the missing GwIP stays empty |
| JsonModel.FieldValueMeaning | drivers/windows/overlay/ov_network_windows.go:389 | a struct field takes nothing when no key naming it up to case holds a value of its type, the one value such keys hold, or a conflict when they hold different values |
| Hns.DecodeTypedPolicy | drivers/windows/overlay/overlay_windows.go:121 | a policy object with a string Type and a 64-bit VSID decodes, over any earlier struct, to exactly those values without error |
| Hns.ScanKeepsVsid | drivers/windows/overlay/overlay_windows.go:119-124 | policies that are never null and never set the VSID field end the scan with the VSID it started with |
| Overlay.Driver.NodeJoin | drivers/windows/overlay/overlay_windows.go:242-286 | the driver's join state moves as the join state machine says, whatever `validateSelf` answers |
| Overlay.Driver.DiscoverNew | drivers/windows/overlay/overlay_windows.go:311-336 | node data of the wrong type or with an empty address is an error; a second datastore is Forbidden; wrong datastore data and a failed open are Internal errors; other events are ignored |

## Left out

- `Init` and `Fini`: driver registration, the `exitCh` rendezvous and opening the local store are left out. Registration and the rendezvous are channel concurrency. The local store is never read by the modelled code. The restore that `Init` starts is modelled as `RestoreHNSNetworks`.
- `configure`, `Type`, `IsBuiltIn`, `Skip`, `DataScope` and `DiscoverDelete`: constant answers or no-ops with no logic.
- `NetworkAllocate`, `NetworkFree`, `ProgramExternalConnectivity` and `RevokeExternalConnectivity`: stubs.
- `vxlanID` and `setVxlanID`: a field read and a field write under the network's lock. Subnets are values here, so `SetValue` writes the VNI directly.
- `writeToStore` and `PutObjectAtomic`: store writes. The store is an input map, and `Value` gives the record that would be written.
- `pushLocalEndpointEvent`, `serfInit`, `serfJoin`, `pushLocalDb` and `isSerfAlive`: serf transport and a channel send. Their outcomes are inputs, and serf being alive is a flag.
- Locks (`sync.Mutex`, `sync.Once`): all operations run one at a time. The unlocked map write in `network()` is modelled as a plain update.
- Byte-level JSON and the JSON text of HNS requests: JSON is an abstract value. A marshalling failure cannot happen for these records and is not modelled.
- Go's map iteration order: the stale scan picks registry entries in an unspecified order (`:|`). Its contract holds for every order.
- `ipV6Data` and the `nInfo` table registration: IPv6 data is never read. The registration is an optional outcome.
- Pointer identity of `*subnet`: subnets are values held in a sequence. `getMatchingSubnet` and `getSubnetforIP` return a position instead of a pointer.
- Go panics are modelled as error results:
  - a wrong-typed field in `SetValue`;
  - a null element in a subnet array, refused while the array is decoded, before any record is applied (Go applies the earlier records first);
  - a null policy in `convertToOverlayNetwork`, which becomes `NilVsidPolicy` and stops the restore;
  - a subnet with a nil prefix reached by `contains`, `getSubnetforIP` or `getMatchingSubnet`, which becomes `NilSubnetPrefix`. In `SetValue` it stops the subnet loop with the earlier records applied.
- Overlay.Driver.ScanSubnets: an IPAM entry always has a pool and a gateway, because `IPAMData` holds both as values. In Go a nil `Gateway` panics at ov_network_windows.go:139, and a nil `Pool` stores a subnet with a nil prefix.
- Net.ParseIP and Net.ParseCIDR: addresses are IPv4 only, and IPv6 text parses as nil. The IPv6 parser and IPv6 arithmetic are not modelled. The lines below give the consequences.
- Discovery.ValidateSelf: an IPv6 advertise address is reported as `InvalidSelfAddress`. Go parses it and compares it with the interface addresses.
- Hns.ConvertedSubnets: an HNS subnet with an IPv6 address prefix is skipped as unparsable. Go restores it.
- Record.SetValueSpec: a stored IPv6 `SubnetIP` becomes a subnet with a nil prefix. Go keeps the IPv6 network, so a later match does not stop there.
- Record.StringField, Record.Uint32Field and Hns.DecodePolicy: two keys that name the same field up to case may hold different values of the field's type. Go keeps the one later in the document. The map model has no key order, so `StringField` and `Uint32Field` report a mismatch and `DecodePolicy` keeps the earlier struct value and fails.
- JsonModel.FoldChar: case folding covers ASCII letters, the Kelvin sign and the long s, which is what `bytes.EqualFold` equates with ASCII letters. Other Unicode foldings are not modelled.
- Overlay.Driver.RestoreHNSNetworks: on a null policy it states only the error and that no entry outside the listed names changes. It does not state which earlier descriptors were already restored.
- Overlay.Driver.CreateNetwork: the stale-scan result, the removal of the stale ids and the registry invariant are stated only when every HNS delete succeeds. A failed delete is only logged and keeps that entry. The outcome of each failed delete is stated by `DeleteExisting` and `InstallNetwork`, which it calls.
- Overlay.Driver.DeleteStale, Overlay.Driver.ClearStale, Overlay.Driver.InstallNetwork and the store reload in Overlay.Driver.GetNetworkFromStore: HNS is a fixed function, so it answers the same request the same way every time. An id listed twice by the stale scan (one old network owning two of the new VNIs) is deleted twice, and a retried delete of an HNS id that failed fails again; a real HNS may accept the retry, which the per-id clauses do not allow for.
- Overlay.Driver.NodeJoin: the logged text and the addresses of logged errors are not modelled. Only the state change is stated.
