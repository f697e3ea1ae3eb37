# Verification of the BrickStor CSI driver

This project models the logic of the BrickStor CSI driver and proves what it promises.
It covers four connected parts:

- **Durations.** The serializable duration: the text it prints, the language it parses,
  64-bit arithmetic that wraps around, and the floating-point loop for the fraction.
- **Listings.** Paging through the volumes and snapshots of all configured nodes with
  opaque tokens, and through the snapshots of one volume.
- **Provisioning.** Creating, cloning, restoring, expanding and deleting volumes, taking
  and deleting snapshots, on appliances that hold datasets with content, quota, share and
  named snapshots. The calls follow the sections 'CreateVolume', 'DeleteVolume',
  'CreateSnapshot', 'DeleteSnapshot', 'ControllerExpandVolume', 'ListVolumes' and
  'ListSnapshots' of the Container Storage Interface specification.
- **Resolution.** The configuration, the resolver map derived from it, and which node of
  which entry serves a request.

Verify with `dafny verify dfyconfig.toml`.

## How the model is laid out

| module | content |
|---|---|
| Text, Status | splitting, numerals, name order; status codes |
| DurationText | the accepted language, its meaning, the shortest text of a duration |
| FloatFraction, Binary64 | the fraction loop over any rounding arithmetic; IEEE binary64 rounding |
| JsonDuration | the class that marshals and parses, with its buffer |
| DurationLaws | what printing and parsing promise together |
| Storage | the appliances: datasets, snapshots, the path filter, the REST operations |
| Configuration | the configuration class, resolvers, the resolver map, runs of refreshes |
| Resolution | which node serves a request, for every order of the resolver map |
| Identifiers | volume ids and snapshot ids |
| Paging, SnapPaging | the two token schemes and chains of requests |
| Provision | reply and new store of each provisioning call on a resolved target |
| Bsr, Listing, Controller | the provider operations, the lists of an entry, the controller server class |
| Runs, RunLaws | runs of provisioning calls, with users writing in between; what every step leaves alone |
| UniquenessLaws, CloneLaws, ContentLaws, SnapshotLaws, VolumeLaws, RepeatLaws, ListingLaws, OutcomeLaws | the main results |

Code that changes state is a class (`Buffer`, `JsonDuration`, `Config`, `Backend`,
`ControllerServer`) whose methods are proved against specification functions; the results
about those functions, over every input and every run, are lemmas.

Every operation of the fraction loop is followed by a rounding function `fl`, a parameter.
`Exact` gives real arithmetic and `Round64` gives IEEE binary64; a result for every
`Machine` holds for both and for any arithmetic as accurate as binary64.

## Where the code and its promises part

- A printed duration read back in binary64 can lose a nanosecond: 30.2 ms comes back as
  30199999 ns (`DurationLaws.Binary64LosesNanosecond`). Over all arithmetic of this accuracy
  the round trip is exact exactly for durations that round to whole seconds
  (`DurationLaws.ExactOnEveryMachine`), and never off by more than one nanosecond.
- The smallest 64-bit duration cannot be negated and prints as `--2562047:-47:-16.`, the only
  printed text that is not accepted again (`DurationLaws.PrintedAccepted`).
- Durations of -499 to -1 ns print as `-00:00:00` and lose the sign on the way back
  (`DurationLaws.PrintParsePrint`).
- The comment at pkg/rest/jsonduration.go:17 allows an empty hour field; the code needs at
  least one digit there (pkg/rest/jsonduration.go:172 and 176). The model follows the code.
- Runs of requests keep snapshot names unique exactly when entries that share an address
  cover each other's default datasets and those are listed by the appliance; a default
  dataset that is left out has nothing below it (`UniquenessLaws.RunsSafeIff`).
- Cloning onto an existing volume reports success and keeps the old content; cloning under a
  name whose snapshot an earlier, deleted clone has left behind gives the content of that
  time (`CloneLaws.CloneContentIff`, with the instances `CloneLaws.CloneOverExisting` and
  `CloneLaws.CloneOfLeftover`).
- A volume made from a snapshot starts with the current content of the snapshot's dataset,
  because the lookup reports the dataset's path, and restoring onto an existing volume
  reports success and changes nothing (`CloneLaws.RestoredContent`).
- Repeating a create request of positive size is refused for a path that the driver does not
  list, since its size is read as zero (`VolumeLaws.CreateBlankAgain`).
- Repeating a request that names no entry, when several entries serve it, may go to another
  entry: a second volume is made there and another id returned. Over all orders of the map the
  repeat of a create request is safe exactly when it can be repeated on its target and names an
  entry or is served by no other (`RepeatLaws.RequestCreateAgainIff`). In the same way a
  snapshot request for a volume id without an entry may be answered with another id
  (`SnapshotLaws.RequestSnapshotAgain`), and a repeated delete may reach another appliance
  (`SnapshotLaws.RequestDeleteAgain`).
- A volume whose entry or path has a colon gets an id that is refused later: deleting it reports
  success and leaves the volume (`VolumeLaws.CreateThenDelete`).
- A blank request that names nothing but a zone goes to the first entry by name and is refused
  when that one is in another zone, whoever else serves the zone
  (`RepeatLaws.FirstEntryDecides`).
- Pages of one volume's snapshots use the volume's path as token, so a continuation is the
  first page again (`SnapPaging.VolumePagingIff`).
- Asking for all snapshots of a node at once gives no continuation on that node, so the
  listing is complete exactly when no node has more than 2000000000
  (`Paging.CappedCompleteIff`).
- A probe of a changed file, and every refresh that fails after the time stamp was taken over
  (on reading, parsing, validation or building resolvers), hide the change: the next refresh
  succeeds, and the resolver map agrees with the configuration exactly when the file has the
  same entries with the same addresses and credentials (`Configuration.ProbeHidesChange`,
  `Configuration.FailureHidesChange`). Failures with a secret, or without a file, hide nothing
  (`Configuration.OtherFailuresShow`).
- Validation admits five-digit ports above 65535, which fail later
  (`Configuration.ValidatedPort`).
- For a volume that is on no node, `DeleteVolume` succeeds, but `DeleteSnapshot` and the lookup
  of one snapshot do so exactly when the id names an entry, and otherwise fail with an internal
  error: the code of the failure differs, and only `DeleteVolume` also looks at its text
  (`Resolution.MissingEverywhere`, `SnapshotLaws.MissingReplies`, with the failing ids in
  `SnapshotLaws.UnnamedMissingSnapshot`).

## Model

| member | source | states |
|---|---|---|
| JsonDuration.JsonDuration.Marshal | pkg/rest/jsonduration.go:29-64 | appends to the buffer exactly the printed text of the duration, for all 2^64 durations including the smallest |
| JsonDuration.JsonDuration.MarshalFraction | pkg/rest/jsonduration.go:54-63 | the digit loop writes the shortest digits that stand for the microseconds, also where rounding saturated |
| JsonDuration.JsonDuration.MarshalClock | pkg/rest/jsonduration.go:41-50 | peeling off units writes the shortest clock of the whole seconds and leaves the nanoseconds below a second; the smallest duration is written with signs in its fields |
| JsonDuration.JsonDuration.MarshalText | pkg/rest/jsonduration.go:66-72 | the unquoted text is the printed text |
| JsonDuration.JsonDuration.MarshalJSON | pkg/rest/jsonduration.go:81-89 | the JSON form is the printed text between double quotes |
| JsonDuration.JsonDuration.UnmarshalJSON | pkg/rest/jsonduration.go:91-98 | accepts exactly quoted durations, holds what the text is parsed to, and a refusal changes nothing |
| JsonDuration.JsonDuration.UnmarshalText | pkg/rest/jsonduration.go:100-103 | accepts exactly the language of durations and holds what the text is parsed to |
| JsonDuration.JsonDuration.Get2Digits | pkg/rest/jsonduration.go:111-119 | succeeds exactly for two decimal digits and then gives their value |
| JsonDuration.JsonDuration.Parse | pkg/rest/jsonduration.go:126-217 | succeeds exactly for a sign and a decimal below 2^63 or a well-formed clock text; the new duration is the wrapped reading of the text, and a refusal changes nothing |
| JsonDuration.JsonDuration.ParseNumber | pkg/rest/jsonduration.go:143-153 | a bare number is days below 10^9 and nanoseconds from there on, with a product that wraps |
| JsonDuration.JsonDuration.ParseClock | pkg/rest/jsonduration.go:160-212 | succeeds exactly when the text cuts into well-formed pieces; the sum is their reading modulo 2^64 |
| JsonDuration.JsonDuration.ParseHours | pkg/rest/jsonduration.go:168-179 | days and hours below 2^64, each with at least one digit |
| JsonDuration.JsonDuration.ParseFraction | pkg/rest/jsonduration.go:192-201 | the loop accepts exactly zero to nine digits, under any rounding arithmetic, and yields their rounded sum in nanoseconds |
| JsonDuration.JsonDuration.Total | pkg/rest/jsonduration.go:209-212 | summing in wrapping 64-bit steps, unsigned and signed, gives the wrapped true sum |
| JsonDuration.RoundedMicros | pkg/rest/jsonduration.go:34-39 | rounding the magnitude with saturation gives the capped number of microseconds |
| DurationText.PiecesOfRender | pkg/rest/jsonduration.go:160-190 | cutting a well-formed clock text at its colons and dots gives back its pieces |
| DurationText.RenderOfPieces | pkg/rest/jsonduration.go:160-190 | and every text that can be cut is the text of its pieces |
| DurationText.AcceptedByForm | pkg/rest/jsonduration.go:126-207 | a colon decides between the two forms, so no text has two readings |
| DurationText.ClockOfMeaning | pkg/rest/jsonduration.go:34-63 | every capped number of microseconds has a shortest clock text that means it |
| DurationText.ShortestUnique | pkg/rest/jsonduration.go:56-63 | a shortest clock text is the only one with its meaning |
| FloatFraction.ExactReading | pkg/rest/jsonduration.go:192-201 | in exact arithmetic every fraction of up to nine digits is read at its value |
| FloatFraction.RoundedReading | pkg/rest/jsonduration.go:192-201 | under any rounding as accurate as binary64 a fraction is read at most one nanosecond low and never high |
| FloatFraction.ExactIsMachine | pkg/rest/jsonduration.go:192-201 | exact arithmetic is accurate enough, so results for every such arithmetic hold for it too |
| FloatFraction.WeightLimit | pkg/rest/jsonduration.go:195-197 | the weight check refuses exactly the tenth digit |
| Binary64.Round64IsMachine | pkg/rest/jsonduration.go:192-201 | IEEE binary64 rounding to nearest even has this accuracy, and its ninth weight is accepted |
| Binary64.ThirtyPointTwoMillis | pkg/rest/jsonduration.go:192-201 | binary64 reads the fraction 0302 as 30199999 ns instead of 30200000 |
| DurationLaws.PrintedAccepted | pkg/rest/jsonduration.go:29-64 | a printed duration is accepted again exactly when it is not the smallest |
| DurationLaws.PrintedMeaning | pkg/rest/jsonduration.go:18-22 | the printed text means the duration rounded half away from zero to microseconds, capped at 9223372036854775 of them |
| DurationLaws.PrintedRounding | pkg/rest/jsonduration.go:34-39 | the printed text is read exactly as the multiple of 1000 ns nearest to the duration, halves away from zero and with its sign, or as the largest multiple where that is out of range |
| DurationLaws.BareMeaning | pkg/rest/jsonduration.go:143-153 | a bare number means days of 86400 seconds below 1000000000 and nanoseconds from there on, with its sign |
| DurationLaws.ClockMeaning | pkg/rest/jsonduration.go:160-212 | a clock text means its days, hours, minutes, seconds and nine fraction digits, also with more than 59 minutes or seconds |
| DurationLaws.PrintedCanonical | pkg/rest/jsonduration.go:34-63 | the printed text is canonical and shortest, and any shortest text with its sign and meaning is it |
| DurationLaws.ParsedExactly | pkg/rest/jsonduration.go:141-216 | in exact arithmetic the result is congruent modulo 2^64 to the meaning of the text, and equal to it whenever that fits |
| DurationLaws.ParsedRounded | pkg/rest/jsonduration.go:141-216 | under any rounding arithmetic it misses the meaning by at most one nanosecond, toward zero, and only in texts with a point |
| DurationLaws.RoundTripExact | pkg/rest/jsonduration.go:29-64 | printing and parsing back rounds to the microsecond and changes nothing else, for every duration but the smallest |
| DurationLaws.RoundTripThroughJson | pkg/rest/jsonduration.go:83-98 | the same between quotes: whatever the quotes are taken to hold is parsed to the rounded duration |
| DurationLaws.RoundTripRounded | pkg/rest/jsonduration.go:29-64 | under any rounding arithmetic the round trip loses at most one nanosecond |
| DurationLaws.ExactOnEveryMachine | pkg/rest/jsonduration.go:192-201 | the round trip is exact under every rounding arithmetic exactly for durations that round to whole seconds |
| DurationLaws.Binary64LosesNanosecond | pkg/rest/jsonduration.go:192-201 | in binary64 30.2 milliseconds come back one nanosecond short |
| DurationLaws.PrintParsePrint | pkg/rest/jsonduration.go:29-64 | print-parse-print is stable under every rounding arithmetic exactly outside -499..-1 ns |
| Text.NamesInOrder | pkg/config/config.go:70-83 | names met in any order come out as the one sorted listing |
| Text.SortedUnique | pkg/config/config.go:80 | a set of names has only one sorted listing |
| Text.LessForm | pkg/config/config.go:80 | one name is in front of another when it is a proper beginning of it or has the smaller character where they first differ |
| Text.Int32Forms | pkg/driver/controllerServer.go:1300-1304 | an offset is decimal digits with or without a sign, read at its value exactly when that has 32 bits |
| Configuration.Config.NodeNames | pkg/config/config.go:69-83 | the sorted listing of the entry names |
| Configuration.Config.Validate | pkg/config/config.go:125-167 | succeeds exactly when every entry is valid, for every order of the map; fills in the default and changes nothing else |
| Configuration.ValidAddressIff | pkg/config/config.go:31 | an address is admitted exactly when it is https, a non-empty host without colon, and a port of one to five digits |
| Configuration.ValidEntryIff | pkg/config/config.go:125-162 | an entry is admitted exactly when all its comma-separated addresses are, it has a user name and a password, and the file system is nfs, cifs or not given |
| Configuration.Config.Refresh | pkg/config/config.go:85-123 | a change is reported exactly when the stamp differs, a secret is given or one stood in for the file; what is reported and what state is left, on every path, including failures after the time stamp was taken over |
| Configuration.SecretTakenIn | pkg/config/config.go:96-119 | a secret is taken in whatever the time stamp: when valid, exactly its entries are left with the default filled in, temporary, and the resolver map agrees |
| Configuration.FileTakenIn | pkg/config/config.go:96-119 | without a secret a file that was changed, or that a secret stood in for, is taken in in the same way, and an unchanged one changes nothing |
| Configuration.NewResolver | pkg/bsr/resolver.go:78-114 | succeeds exactly when every comma-separated address makes a provider; one provider per address in order |
| Configuration.NewResolverMap | pkg/driver/utils.go:32-59 | succeeds exactly when every entry makes a resolver; then the map is the index of the configuration |
| Configuration.Credentials | pkg/bsr/resolver.go:95-107 | in an index that agrees every provider has its address and the user name, password and certificate check of its entry, each in its place |
| Configuration.RefreshAgrees | pkg/driver/controllerServer.go:77-97 | a successful refresh that reports a change brings map and configuration into agreement whatever went before |
| Configuration.RunAgrees | pkg/driver/controllerServer.go:77-97 | in every error-free run with the server as only refresher the map keeps agreeing with the configuration |
| Configuration.ProbeHidesChange | pkg/driver/identityServer.go:85-97 | after a probe that takes in a changed file, valid or not, the next refresh succeeds, and the map agrees exactly when the file has the same entries, addresses and credentials |
| Configuration.FailureHidesChange | pkg/config/config.go:96-120 | the same after every refresh that fails once the file was found changed: unreadable, malformed, invalid or without resolvers |
| Configuration.OtherFailuresShow | pkg/config/config.go:87-108 | a missing file changes nothing, and after a failed secret the next successful refresh is in agreement |
| Configuration.AgreesWithBothIff | pkg/driver/utils.go:32-59 | a map that is the index of one configuration is that of another exactly when entries, addresses and credentials are the same |
| Configuration.ValidatedPort | pkg/bsr/provider.go:108-119 | a validated address makes a provider exactly when its port fits 16 bits |
| Bsr.Resolve | pkg/bsr/resolver.go:21-45 | the scan over the nodes, with the failure of the last one asked |
| Bsr.ResolveByAddress | pkg/bsr/resolver.go:47-63 | finds exactly the non-empty addresses of the resolver |
| Bsr.AgreedAddressesReached | pkg/driver/controllerServer.go:378-382 | with map and configuration in agreement the lookup inside the listing loops never fails |
| Resolution.ResolveOnMeaning | pkg/bsr/resolver.go:21-45 | a resolver succeeds exactly when a node has the dataset and picks the first; with all nodes reachable a failure says that it does not exist |
| Resolution.ResolveFailure | pkg/bsr/resolver.go:21-45 | a failed resolver reports what its last node said |
| Controller.ControllerServer.RefreshConfig | pkg/driver/controllerServer.go:77-97 | the outcome and the new state of a refresh, also when it fails; the map is replaced only by a complete new one |
| Controller.ControllerServer.ResolveBsrNoZone | pkg/driver/controllerServer.go:136-206 | the outcome is one resolution allows, for every order of the map |
| Controller.ControllerServer.ResolveBsrWithZone | pkg/driver/controllerServer.go:208-298 | the same with a zone |
| Controller.ControllerServer.ResolveBSR | pkg/driver/controllerServer.go:109-134 | the same for any request |
| Controller.ControllerServer.PickAvailabilityZone | pkg/driver/controllerServer.go:1646-1665 | the first preferred zone, else the first requisite one, else none |
| Controller.ZoneMeaning | pkg/driver/controllerServer.go:1646-1665 | the zone is that of the first preferred topology that names one, else of the first requisite one, else empty, by position in the two lists |
| Resolution.ResolutionSoundComplete | pkg/driver/controllerServer.go:136-298 | success gives the first node of an eligible entry that has the requested or default dataset, a named entry and a zone are honoured, and it succeeds exactly when some eligible entry serves |
| Resolution.NamedSoundComplete | pkg/driver/controllerServer.go:144-171 | the same for a request that names its entry, whatever state the map is in |
| Resolution.AnswersAreOrders | pkg/driver/controllerServer.go:173-206 | the outcomes resolution allows are exactly those of trying the entries in some order of the map |
| Resolution.DeterministicIff | pkg/driver/controllerServer.go:173-206 | all orders of the map give the same outcome exactly when an entry is named or at most one can serve |
| Resolution.MissingEverywhere | pkg/driver/controllerServer.go:122-129 | a dataset on no node is unresolved for every order; the code says so exactly when the request names an entry, the text always |
| Identifiers.VolumeIdRoundTrip | pkg/driver/utils.go:20-30 | a volume id decodes to its parts exactly when neither holds a colon |
| Identifiers.SnapshotIdRoundTrip | pkg/driver/controllerServer.go:1009-1022 | a snapshot id decodes through the at sign and the colon to its parts exactly when the separators are not in them |
| Identifiers.SnapshotIdsDiffer | pkg/driver/controllerServer.go:969 | different snapshots have different ids |
| Bsr.Backend.GetDatasets | pkg/rest/api.go:24-49 | the listed datasets are exactly the usable ones, in order, with their data |
| Bsr.Backend.GetSnapshots | pkg/bsr/api.go:447-492 | the snapshots of all named datasets; naming none is an error |
| Storage.UsableBelow | pkg/rest/api.go:31-44 | the path filter is closed under descendants, and below a path it refuses there is one it refuses |
| Storage.UsableListed | pkg/rest/api.go:31-44 | the listed paths are exactly the hosted ones that pass the filter |
| Storage.ListedInOrder | pkg/rest/api.go:31-44 | the filter keeps the order of the paths, and the snapshots of a dataset stand in name order |
| Storage.UsableForm | pkg/rest/api.go:31-44 | the filter passes exactly paths below a pool not starting with "bp" whose rest starts with "global" |
| Storage.UnderForm | pkg/driver/controllerServer.go:867-877 | the paths below a dataset are exactly those that continue it after a slash |
| Paging.GetPagingValues | pkg/driver/controllerServer.go:1277-1327 | which tokens are accepted and where they continue; offsets have 32 bits |
| Paging.TokenRoundTrip | pkg/driver/controllerServer.go:1293-1313 | an emitted token is read back as its node and offset |
| Paging.AcceptedTokenForm | pkg/driver/controllerServer.go:1293-1319 | every accepted token names a listed node and a 32-bit offset |
| Controller.CutPage | pkg/driver/controllerServer.go:402-430 | the entries and the next token of a page, negative and oversized offsets included |
| Paging.PageShows | pkg/driver/controllerServer.go:402-430 | a page entry by entry: where it starts, how long it is, and which token it gives, for every offset and limit |
| Paging.RequestCodes | pkg/driver/controllerServer.go:326-346 | a negative limit is an invalid argument, a token that is not accepted aborts, and no limit is one of 2000000000 |
| Paging.NextPage | pkg/driver/controllerServer.go:353-431 | from any accepted start a page keeps its limit and its token is accepted and further along |
| Paging.DrainChained | pkg/driver/controllerServer.go:353-431 | from every accepted token, following the tokens ends, each page being the reply to the request before it |
| Paging.DrainComplete | pkg/driver/controllerServer.go:353-431 | from the empty token, with any mix of page sizes, the pages concatenate to all lists in order, each entry once, and no page but the last is empty |
| Paging.CappedCompleteIff | pkg/driver/controllerServer.go:1196-1208 | asking for all snapshots of every node is complete exactly when no node has more than the page limit |
| Controller.ControllerServer.ListVolumes | pkg/driver/controllerServer.go:320-440 | one page of the volume listing is the reply paging specifies over the lists of the sorted entries |
| Controller.ControllerServer.EntryDatasets | pkg/driver/controllerServer.go:369-396 | the usable datasets of every reachable address of an entry, in order |
| Listing.AddressesInTurn | pkg/driver/controllerServer.go:369-396 | an entry lists what its addresses list, one after another, those without a node of the resolver left out |
| Controller.ControllerServer.ListAllSnapshots | pkg/driver/controllerServer.go:1083-1221 | one page of the snapshot listing is the reply paging specifies |
| Controller.ControllerServer.EntrySnapshots | pkg/driver/controllerServer.go:1122-1175 | the snapshots with a creator below the default dataset at every reachable address |
| Listing.SnapshotsInTurn | pkg/driver/controllerServer.go:1122-1175 | so are its snapshots, those with a creator below the default dataset |
| Controller.ControllerServer.ListSnapshots | pkg/driver/controllerServer.go:1062-1087 | a request for one snapshot, for one volume and for all gets the reply of its kind |
| Controller.ControllerServer.GetSingleSnap | pkg/driver/controllerServer.go:1223-1273 | an id decodes to entry, dataset and name; the reply on every path |
| Controller.ControllerServer.GetDsSnapList | pkg/driver/controllerServer.go:1332-1408 | the page of one volume's snapshots on the resolved node, within its limit; an unresolved volume has none |
| ListingLaws.VolumeSnapshotsListed | pkg/driver/controllerServer.go:1332-1408 | a listing by an id of entry and path asks that entry only, on its first node with the volume, and shows nothing but that volume's snapshots, all visible ones without token and limit, and none for a token that is not the volume's path |
| ListingLaws.CreatedVolumeListed | pkg/driver/controllerServer.go:1332-1408 | the id a create request returned leads such a listing to the new volume on its node |
| ListingLaws.VolumeListingComplete | pkg/driver/controllerServer.go:343-431 | with map and configuration in agreement the chain of pages lists an id exactly when it stands for a usable dataset of an entry, in entry order |
| ListingLaws.SnapshotListingComplete | pkg/driver/controllerServer.go:1106-1211 | the same for snapshots with a creator below each default dataset, with at most 2000000000 per entry |
| ListingLaws.VolumesOnce | pkg/driver/controllerServer.go:343-431 | with pools apart and names without colon no volume id is listed twice, whatever the page sizes |
| ListingLaws.SnapshotsOnce | pkg/driver/controllerServer.go:1106-1211 | nor is a snapshot |
| ListingLaws.ListedSnapshotFound | pkg/driver/controllerServer.go:1223-1273 | a listed snapshot has the id of its entry, path and name, and looking it up by that id gives the very entry of the list |
| ListingLaws.CreatedIsListed | pkg/driver/controllerServer.go:343-431 | the id of a created volume is listed exactly when the driver lists its path |
| SnapPaging.ListVolumeSnaps | pkg/driver/controllerServer.go:1374-1403 | the walk that skips to the token gives the specified page |
| SnapPaging.VolumeSnapsComplete | pkg/driver/controllerServer.go:1374-1403 | with keys that differ, following the tokens shows every snapshot with a creator once and in order, within the limits |
| SnapPaging.SnapsOfSameKeys | pkg/bsr/api.go:470-488 | all snapshots of one volume carry the same key |
| SnapPaging.UnknownToken | pkg/driver/controllerServer.go:1374-1403 | a token that is the key of no snapshot gives an empty page |
| SnapPaging.ContinuationRepeats | pkg/driver/controllerServer.go:1374-1403 | with one key for all, every continuation is the first page |
| SnapPaging.VolumePagingIff | pkg/driver/controllerServer.go:1374-1403 | for one volume the tokens never run out exactly when there is a limit and as many visible snapshots in front of the last one; then every page is the first, otherwise the first is complete |
| Bsr.Backend.CreateDataset | pkg/bsr/api.go:146-166 | succeeds exactly on a new path, an existing one being a failure of its own; adds an empty dataset with the quota and changes no other |
| Bsr.Backend.UpdateDataset | pkg/bsr/api.go:168-197 | succeeds exactly on an existing path; sets the quota, or removes it for a size that is not positive, and changes nothing else |
| Bsr.Backend.DestroyDataset | pkg/bsr/api.go:199-213 | succeeds exactly on an existing path; removes that dataset and changes no other |
| Bsr.Backend.CreateNfsShare | pkg/bsr/api.go:215-244 | succeeds exactly on an existing path; sets the share text and changes nothing else |
| Bsr.Backend.CreateSnapshot | pkg/bsr/api.go:359-395 | succeeds exactly for a new name on an existing path; adds a snapshot of the content of that moment and changes nothing else |
| Bsr.Backend.DestroySnapshot | pkg/bsr/api.go:494-510 | succeeds exactly when the path names a snapshot; removes that one and changes nothing else |
| Bsr.Backend.CloneSnapshot | pkg/bsr/api.go:512-535 | succeeds exactly for a new target in the pool of the source; adds a dataset with the content of the snapshot, or of the dataset when one is named, and changes no other |
| Controller.ControllerServer.CreateSnapshotOnBSR | pkg/driver/controllerServer.go:833-920 | reply and new store of taking a snapshot: an existing one is returned, a name in use elsewhere below the default dataset is refused |
| Controller.ControllerServer.DuplicateName | pkg/driver/controllerServer.go:857-894 | the scan reports a duplicate exactly when another listed dataset below the default one has a snapshot of the name |
| Controller.ControllerServer.CreateSnapshot | pkg/driver/controllerServer.go:924-987 | reply and new store of the call on every path, for every resolution outcome |
| Controller.ControllerServer.DeleteSnapshot | pkg/driver/controllerServer.go:990-1049 | the same for deleting; a missing snapshot counts as deleted, and a volume that is not resolved only when the failure has the code for it |
| Controller.ControllerServer.CreateNewVol | pkg/driver/controllerServer.go:673-707 | on success the volume is there, new ones empty with the quota; an existing one must be big enough and stays; no other dataset changes |
| Controller.ControllerServer.CreateNewVolFromSnap | pkg/driver/controllerServer.go:709-739 | on success the snapshot was and the volume is there; an existing one stays; no other dataset changes |
| Controller.ControllerServer.CreateClonedVol | pkg/driver/controllerServer.go:741-771 | on success source and volume are there; every dataset keeps content and quota, and at most the volume is new, also in a failure after the snapshot was taken |
| Controller.ControllerServer.CreateVolume | pkg/driver/controllerServer.go:443-661 | reply and new store of the call on every path, for every source and every resolution outcome |
| Controller.RefusalCodes | pkg/driver/controllerServer.go:448-474 | which requests are refused out of hand, with which code |
| VolumeLaws.SourceDecides | pkg/driver/controllerServer.go:529-559 | a request with a source goes to the entry of the source's id; an id with further colons is not found, another kind of source an invalid argument |
| VolumeLaws.SourceNamed | pkg/driver/controllerServer.go:564-573 | the volume a clone request names: its path, or the name below the resolved dataset |
| Controller.ControllerServer.DeleteVolume | pkg/driver/controllerServer.go:774-831 | reply and new store of the call; what is not found counts as deleted |
| Controller.ControllerServer.ControllerExpandVolume | pkg/driver/controllerServer.go:1593-1644 | reply and new store of the call on every path |
| Listing.ScanDecides | pkg/driver/controllerServer.go:872-892 | a name is taken exactly when a snapshot in the scanned list of another dataset has it |
| UniquenessLaws.SnapshotsSafeIff | pkg/driver/controllerServer.go:857-894 | snapshots taken through an entry keep names unique below a dataset exactly when everything that can be below it is listed and below the entry's default dataset |
| UniquenessLaws.StepKeepsUnique | pkg/driver/controllerServer.go:833-920 | every provisioning step keeps snapshot names unique below every default dataset |
| UniquenessLaws.RunKeepsUnique | pkg/driver/controllerServer.go:833-920 | so does every run of steps |
| UniquenessLaws.CallsKeepUnique | pkg/driver/controllerServer.go:833-920 | so does every run of calls, each resolved against the store it meets in whatever order the map gives |
| UniquenessLaws.RunsSafeIff | pkg/driver/controllerServer.go:860-894 | no run of resolved requests ever makes a duplicate exactly when entries sharing an address cover each other's usable default datasets, those that are left out aside |
| UniquenessLaws.UnseenDuplicate | pkg/driver/controllerServer.go:866-877 | a concrete store in which an unseen volume's snapshot name is given again |
| UniquenessLaws.UnsafeRun | pkg/driver/controllerServer.go:549-577 | a clone request that resolution leads to that store makes the duplicate |
| CloneLaws.StepKeepsImage | pkg/driver/controllerServer.go:741-771 | every harmless step keeps the clone's snapshot and keeps the clone from any other content |
| CloneLaws.ClonePointInTime | pkg/driver/controllerServer.go:741-771 | after the snapshot is taken, cut off or not, no run of harmless calls gives the clone later content, and a retry on the same node that succeeds leaves exactly the content of that moment |
| RepeatLaws.RequestPointInTime | pkg/driver/controllerServer.go:549-577 | the same for whole requests: wherever the repeat is resolved the clone has no later content, and through the same entry, as it must when one is named, it goes to the same target and leaves that content |
| CloneLaws.CloneContentIff | pkg/driver/controllerServer.go:741-771 | a successful clone has the source's content exactly when an existing target has it, or else an existing snapshot of that name, or else neither exists |
| CloneLaws.CloneOverExisting | pkg/driver/controllerServer.go:759-762 | a concrete store in which the request succeeds and the old content stays |
| CloneLaws.CloneOfLeftover | pkg/driver/controllerServer.go:852-855 | a concrete store in which a new clone gets the content of an earlier one's snapshot |
| ContentLaws.FirstClone | pkg/driver/controllerServer.go:741-771 | a successful first clone of its name holds what its source holds, and its snapshot has the volume's name in it |
| ContentLaws.ClonesIndependent | pkg/driver/controllerServer.go:746-771 | after a clone, any harmless run and a write to the source, a clone under another name holds what was written and the first keeps its content |
| CloneLaws.RestoredContent | pkg/driver/controllerServer.go:716-730 | a restored volume has its dataset's current content and an existing one keeps its own, so the snapshot's exactly when they agree |
| ContentLaws.RequestRestore | pkg/driver/controllerServer.go:529-547 | a successful request from a snapshot id needs that snapshot, and the volume holds its dataset's current content or, when it existed, its own |
| SnapshotLaws.CreateSnapshotOutcome | pkg/driver/controllerServer.go:833-920 | exactly when a snapshot request succeeds, the id, source and time it replies with, and the content, creator and time of a new snapshot |
| SnapshotLaws.SnapshotRefusals | pkg/driver/controllerServer.go:840-892 | without the volume a snapshot request is not found, with the name on another listed dataset below the default one it already exists, and nothing changes |
| SnapshotLaws.RunKeepsHeld | pkg/driver/controllerServer.go:833-920 | a snapshot survives every run that spares it, with content, creator and creation time |
| SnapshotLaws.RunKeepsGone | pkg/driver/controllerServer.go:833-920 | a snapshot that is gone stays gone in every run that does not take it again |
| SnapshotLaws.CreateSnapshotAgain | pkg/driver/controllerServer.go:846-855 | after every run that spares the snapshot, repeating the request gives the same id and creation time and changes nothing |
| SnapshotLaws.RequestSnapshotAgain | pkg/driver/controllerServer.go:951-987 | after every run of requests that spares it, the repeated request gets the same reply and changes nothing, for every order of the map, exactly when the volume id names an entry or no other entry has the path |
| SnapshotLaws.CreateThenDeleteSnapshot | pkg/driver/controllerServer.go:1007-1048 | however the volume was named, the id of a fresh snapshot decodes to it and may resolve to the same target; deleting by it restores the store for every order exactly when the entry has a name or all lead to this node |
| SnapshotLaws.DeleteSnapshotAgain | pkg/driver/controllerServer.go:1039-1048 | deleting after any run that spares the snapshot removes exactly it; deleting again after any run that does not retake it succeeds and changes nothing |
| SnapshotLaws.RequestDeleteAgain | pkg/driver/controllerServer.go:1024-1048 | deleting again by the id, even when the run deletes the volume, succeeds and changes nothing for every order exactly when the id names an entry, or some entry has the path and none leads to such a snapshot |
| SnapshotLaws.MissingReplies | pkg/driver/controllerServer.go:1029-1036 | for a volume on no node deleting it succeeds, deleting or looking up its snapshot exactly when the id names an entry |
| SnapshotLaws.UnnamedMissingSnapshot | pkg/driver/controllerServer.go:1029-1036 | every id of the form path and name of such a volume fails to be deleted |
| SnapshotLaws.RemovedEntry | pkg/driver/controllerServer.go:144-151 | by the id of a removed entry without a path a delete of the volume counts as done, everything else fails with an internal error |
| RunLaws.StepHosts | pkg/driver/controllerServer.go:443-661 | no step but a create brings a dataset, and that one only its volume |
| RunLaws.CallsKeepHome | pkg/driver/controllerServer.go:592-597 | no run of requests moves a pool to another node |
| RunLaws.CreateSnaps | pkg/driver/controllerServer.go:741-771 | after the snapshot a clone takes, creating a volume changes no snapshots |
| RunLaws.CreateAddsOnly | pkg/driver/controllerServer.go:443-661 | creating touches the existence of no dataset but the volume's own, for every source |
| VolumeLaws.CreatedVolume | pkg/driver/controllerServer.go:519-660 | after a successful request the volume is below the resolved dataset and shared as asked, the id is the entry's name and the path, capacity and source are the request's, so is the context, with the entry's permissions as default, the published zone is the entry's, and a request that names nothing goes to the first entry |
| VolumeLaws.BlankOnExisting | pkg/driver/controllerServer.go:681-698 | on an existing path a request succeeds exactly when no size is asked for or the size is enough, and nothing changes |
| VolumeLaws.CreateBlankAgain | pkg/driver/controllerServer.go:673-707 | on the same target, repeating a successful blank request gives the same reply and store exactly when no positive size was asked for or the path is listed |
| VolumeLaws.CreateCloneAgain | pkg/driver/controllerServer.go:741-771 | on the same target, repeating a successful clone request gives the same reply and changes nothing |
| RepeatLaws.CreateRestoreAgain | pkg/driver/controllerServer.go:709-739 | on the same target, repeating a successful restore gives the same reply and changes nothing |
| RepeatLaws.CreateAgainIff | pkg/driver/controllerServer.go:673-771 | on the same target, exactly which requests of the three sources can be repeated |
| RepeatLaws.FoundAgain | pkg/driver/controllerServer.go:136-298 | after a successful request its target may be resolved again, and its entry gives no other, for every source and with or without a named entry |
| RepeatLaws.RequestCreateAgainIff | pkg/driver/controllerServer.go:443-661 | repeating a successful request gives the same reply and store for every order of the map exactly when it can be repeated on its target and names an entry or is served by no other |
| RepeatLaws.AnotherEntry | pkg/driver/controllerServer.go:173-197 | when another entry serves, an allowed repeat differs, and has another id if it succeeds |
| RepeatLaws.FirstEntryDecides | pkg/driver/controllerServer.go:579-587 | a blank request that names only a zone is refused when the first entry is in another zone |
| VolumeLaws.RunQuota | pkg/driver/controllerServer.go:1636-1643 | over every run of steps that does not delete the volume it stays, with the quota last set by an expansion of it |
| VolumeLaws.RunContent | pkg/driver/controllerServer.go:443-661 | and with its content, unless a user writes to it |
| VolumeLaws.CreateAfterRun | pkg/driver/controllerServer.go:691-698 | after every such run, while a quota is set, a create request succeeds exactly when it asks for no size or at most the current quota |
| VolumeLaws.ExpandOutcome | pkg/driver/controllerServer.go:1636-1643 | an expansion replies with its size and sets it as the quota, and without the volume fails and changes nothing |
| OutcomeLaws.NobodyAsked | pkg/driver/controllerServer.go:579-587 | a blank request that names nothing is not found when no entry is configured |
| OutcomeLaws.ReplyAsMade | pkg/driver/controllerServer.go:603-660 | once the volume is made the request succeeds, shared or not, unless its entry is gone |
| OutcomeLaws.BlankOutcome | pkg/driver/controllerServer.go:673-707 | exactly when a blank request succeeds, with both codes; an existing volume is measured by its quota, or without one by the space there is, and as zero where it is not listed |
| OutcomeLaws.RestoreOutcome | pkg/driver/controllerServer.go:709-739 | exactly when a request from a snapshot id succeeds, with both codes; a failure changes nothing |
| OutcomeLaws.CloneOutcome | pkg/driver/controllerServer.go:741-771 | exactly when a clone request succeeds, with the code of every failure |
| OutcomeLaws.NewVolume | pkg/driver/controllerServer.go:673-771 | whatever it is made from, a new volume has the quota asked for and no snapshots, and an existing one keeps its quota |
| OutcomeLaws.SnapshotOutcome | pkg/driver/controllerServer.go:840-920 | on a volume that is there, an existing snapshot is returned, a name in use or one that cannot be given refused with its own code, and no volume comes or goes |
| OutcomeLaws.LookupOutcome | pkg/driver/controllerServer.go:1254-1273 | a lookup replies with the id, the volume id and the time of the snapshot, or fails when it is not there |
| OutcomeLaws.DeleteSnapshotOutcome | pkg/driver/controllerServer.go:1039-1048 | deleting a snapshot fails only on an appliance that is away, and afterwards it is gone |
| OutcomeLaws.DeleteOutcome | pkg/driver/controllerServer.go:774-830 | deleting a volume fails without an id, without a path and on an appliance that is away; otherwise it is gone and no other is |
| VolumeLaws.CreateThenDelete | pkg/driver/controllerServer.go:774-831 | for every source, deleting a fresh volume by its returned id restores the store for every order (a clone leaves the source's snapshot) exactly when entry and path have no colon; with one it reports success and changes nothing |
| VolumeLaws.DeleteVolumeAgain | pkg/driver/controllerServer.go:806-830 | once deleted, an id that names an entry finds nothing, and deleting by it again succeeds and changes nothing |

## Left out

- DurationLaws.ExactOnEveryMachine: the condition is exact over all arithmetic of this accuracy; for binary64 alone it is sufficient, and which further durations come back exactly depends on each digit string.
- Machine: one rounding function stands for all four operations; fused multiply-add, which some processors use in the fraction loop, is not part of this model.
- Bsr.Backend.CloneSnapshot: cloning a dataset directly leaves a hidden snapshot on the appliance, which the model does not keep.
- Bsr.Backend.DestroyDataset: children, clones and holds that could refuse or delay a deletion are not modelled; the source says the appliance handles clones.
- Controller.ControllerServer.GetSingleSnap: the appliance may answer a missing snapshot with "not found" or with an empty list; the model has the empty list, which the driver reports as another failure.
- Controller.ControllerServer.RefreshConfig: the refresh at the start of each call is a step of its own, so the calls are modelled after it and without the code a failed refresh is reported with; which of several secrets is taken is a parameter.
- Controller.ControllerServer.ResolveBSR: a request for an unknown entry name or with an empty resolver map, which would use a resolver or an error that is not there, is excluded by a precondition; a certificate error, which has a code of its own, is not modelled.
- Controller.ControllerServer.CreateVolume: the capability list is reduced to absent, unsupported or supported.
- Configuration.Config.Refresh: YAML decoding is a parameter that gives the resulting map; fields that are only passed through are left out.
- Errors are told apart by kind, not by their text; a path that itself contains "not found" or "NotFound" is not considered.
- A node that is down is an address that is not in the fleet; a fleet does not change while one call runs, and changes are visible at once, so the ten-try loops are left out.
- The order of datasets and snapshots in appliance replies is taken to be that of their names.
- Cleaning of paths by filepath.Join: names are taken to be clean.
- The parent field of snapshots and the mount point of datasets, which no modelled code reads.
- Mutual exclusion between calls: calls run one after another.
- SMB shares, access lists, GetCapacity and ValidateVolumeCapabilities: wrappers over modelled calls.
- The node server (mounting), the identity server's other replies, HTTP, TLS, login, gRPC and logging.
