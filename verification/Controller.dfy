/** The controller server: resolution, listings, volumes and snapshots. Each remote call
    is modelled after its refresh of the configuration, which is a step of its own. */
module Controller {
  import opened Text
  import opened Status
  import opened Storage
  import opened Configuration
  import opened Resolution
  import opened Identifiers
  import opened Provision
  import opened Paging
  import opened SnapPaging
  import opened Bsr
  import opened Listing
  import RunLaws

  /** The first zone among topologies, if any. */
  function ZoneAmong(topologies: seq<Topology>): Option<string> {
    if topologies == [] then None
    else if TopologyKeyZone in topologies[0].segments then Some(topologies[0].segments[TopologyKeyZone])
    else ZoneAmong(topologies[1..])
  }

  /** The zone of a request: a preferred one before a requisite one, empty when none is named. */
  function ZoneOf(requirement: Option<TopologyRequirement>): string {
    match requirement
    case None => ""
    case Some(r) =>
      match ZoneAmong(r.preferred)
      case Some(zone) => zone
      case None =>
        match ZoneAmong(r.requisite)
        case Some(zone) => zone
        case None => ""
  }

  /** The i-th topology is the first that names a zone. */
  predicate FirstZone(topologies: seq<Topology>, i: nat) {
    i < |topologies| && "topology.kubernetes.io/zone" in topologies[i].segments
    && forall k :: 0 <= k < i ==> "topology.kubernetes.io/zone" !in topologies[k].segments
  }

  predicate NoZone(topologies: seq<Topology>) {
    forall k :: 0 <= k < |topologies| ==> "topology.kubernetes.io/zone" !in topologies[k].segments
  }

  lemma {:induction false} AmongMeaning(topologies: seq<Topology>)
    ensures NoZone(topologies) <==> ZoneAmong(topologies) == None
    ensures forall i: nat :: FirstZone(topologies, i) ==>
              ZoneAmong(topologies) == Some(topologies[i].segments["topology.kubernetes.io/zone"])
  {
    if topologies != [] {
      var rest := topologies[1..];
      AmongMeaning(rest);
      assert NoZone(topologies) <==> "topology.kubernetes.io/zone" !in topologies[0].segments && NoZone(rest) by {
        assert forall k :: 0 <= k < |rest| ==> rest[k] == topologies[k + 1];
      }
      forall i: nat | FirstZone(topologies, i)
        ensures ZoneAmong(topologies) == Some(topologies[i].segments["topology.kubernetes.io/zone"])
      {
        if i > 0 {
          assert "topology.kubernetes.io/zone" !in topologies[0].segments;
          assert forall k :: 0 <= k < i - 1 ==> rest[k] == topologies[k + 1];
          assert FirstZone(rest, i - 1);
        }
      }
    }
  }

  /** The zone is that of the first preferred topology that names one; if none does, that of
      the first requisite one; and otherwise empty. */
  lemma ZoneMeaning(r: TopologyRequirement)
    ensures forall i: nat :: FirstZone(r.preferred, i) ==>
              ZoneOf(Some(r)) == r.preferred[i].segments["topology.kubernetes.io/zone"]
    ensures forall j: nat :: NoZone(r.preferred) && FirstZone(r.requisite, j) ==>
              ZoneOf(Some(r)) == r.requisite[j].segments["topology.kubernetes.io/zone"]
    ensures NoZone(r.preferred) && NoZone(r.requisite) ==> ZoneOf(Some(r)) == ""
    ensures ZoneOf(None) == ""
  {
    AmongMeaning(r.preferred);
    AmongMeaning(r.requisite);
    forall i: nat | FirstZone(r.preferred, i)
      ensures ZoneOf(Some(r)) == r.preferred[i].segments["topology.kubernetes.io/zone"]
    {
      assert !NoZone(r.preferred);
    }
    forall j: nat | NoZone(r.preferred) && FirstZone(r.requisite, j)
      ensures ZoneOf(Some(r)) == r.requisite[j].segments["topology.kubernetes.io/zone"]
    {
    }
  }

  /** A page of one list: the entries from an offset on, up to a limit. */
  method CutPage<T>(nodes: seq<string>, nodeIndex: nat, list: seq<T>, offset: int, max: nat, capped: bool)
    returns (page: Page<T>)
    requires nodeIndex < |nodes| && max >= 1
    ensures page == PageHere(nodes, nodeIndex, list, offset, max, capped)
  {
    var entries: seq<T>, nextToken := [], "";
    ghost var from := if offset < 0 then 0 else if offset > |list| then |list| else offset;
    var i := 0;
    while i < |list|
      invariant i <= |list|
      invariant entries == if i <= from then [] else list[from..i]
      invariant |entries| < max
    {
      if i < offset {
        i := i + 1;
        continue;
      }
      assert list[from..i + 1] == list[from..i] + [list[i]];
      entries := entries + [list[i]];
      i := i + 1;
      if |entries| == max {
        break;
      }
    }
    if !(capped && max == 2_000_000_000) && offset + |entries| < |list| {
      nextToken := TokenOf(nodes[nodeIndex], offset + |entries|);
    } else if nodeIndex + 1 < |nodes| {
      nextToken := TokenOf(nodes[nodeIndex + 1], 0);
    }
    return Page(entries, nextToken);
  }

  class ControllerServer {
    var bsrResolverMap: ResolverMap
    const config: Config
    const backend: Backend

    constructor (config: Config, backend: Backend, resolverMap: ResolverMap)
      ensures this.config == config && this.backend == backend && bsrResolverMap == resolverMap
    {
      this.config, this.backend, bsrResolverMap := config, backend, resolverMap;
    }

    /** No entry of the configuration lacks a resolver. */
    ghost predicate Ready()
      reads this, config
    {
      config.NodeMap.Keys <= bsrResolverMap.Keys
    }

    ghost function State(): ServerState
      reads this, config
    {
      ServerState(ConfigState(config.filePath, config.NodeMap, config.lastModTime, config.temporary), bsrResolverMap)
    }

    /** Takes in a changed configuration and rebuilds the resolver map from it. */
    method RefreshConfig(secret: string, stat: Option<int>, content: Content) returns (ok: bool)
      modifies this, config
      ensures ok == ServerStep(old(State()), Refresh(secret, stat, content)).0
      ensures ok ==> State() == ServerStep(old(State()), Refresh(secret, stat, content)).1
      ensures !ok ==>
                var failed := ServerStep(old(State()), Refresh(secret, stat, content)).1;
                && bsrResolverMap == old(bsrResolverMap) == failed.index
                && config.lastModTime == failed.config.lastModTime && config.temporary == failed.config.temporary
                && SameEntries(config.NodeMap, failed.config.nodes)
    {
      var changed;
      changed, ok := config.Refresh(secret, stat, content);
      if !ok {
        return;
      }
      if changed {
        var resolverMap := NewResolverMap(config);
        if resolverMap.None? {
          return false;
        }
        bsrResolverMap := resolverMap.value;
      }
    }

    /* -------------------------------------------------------------- resolution */

    /** The zone a request names. */
    method PickAvailabilityZone(requirement: Option<TopologyRequirement>) returns (zone: string)
      ensures zone == ZoneOf(requirement)
    {
      if requirement.None? {
        return "";
      }
      var preferred := requirement.value.preferred;
      var i := 0;
      while i < |preferred|
        invariant i <= |preferred| && ZoneAmong(preferred[i..]) == ZoneAmong(preferred)
      {
        if TopologyKeyZone in preferred[i].segments {
          return preferred[i].segments[TopologyKeyZone];
        }
        i := i + 1;
      }
      var requisite := requirement.value.requisite;
      i := 0;
      while i < |requisite|
        invariant i <= |requisite| && ZoneAmong(requisite[i..]) == ZoneAmong(requisite)
      {
        if TopologyKeyZone in requisite[i].segments {
          return requisite[i].segments[TopologyKeyZone];
        }
        i := i + 1;
      }
      return "";
    }

    method ResolveBsrNoZone(params: Params) returns (r: Resolved)
      requires params.zone == "" && Answerable(config.NodeMap, bsrResolverMap, params)
      ensures Answers(config.NodeMap, bsrResolverMap, backend.fleet, params, r)
    {
      var datasetPath := params.datasetPath;
      if |params.configName| > 0 {
        if datasetPath == "" {
          var cfg := config.LookupNode(params.configName);
          if cfg.None? {
            return Unresolved(NodeRemoved);
          }
          datasetPath := cfg.value.DefaultDataset;
        }
        var provider := Resolve(bsrResolverMap[params.configName], backend, datasetPath);
        match provider
        case Done(addr) => return Found(Target(datasetPath, addr, params.configName));
        case Failed(err) => return Unresolved(ProviderError(err));
      }
      var rest := bsrResolverMap.Keys;
      while rest != {}
        invariant rest <= bsrResolverMap.Keys
        invariant params.datasetPath != "" ==> datasetPath == params.datasetPath
        invariant forall name :: name in bsrResolverMap && name !in rest ==>
                    !Serves(config.NodeMap, bsrResolverMap, backend.fleet, params, name)
                    && (LooksUp(params) ==> name in config.NodeMap)
        decreases |rest|
      {
        var name :| name in rest;
        rest := rest - {name};
        if params.datasetPath == "" {
          var cfg := config.LookupNode(name);
          if cfg.None? {
            return Unresolved(NodeRemoved);
          }
          datasetPath := cfg.value.DefaultDataset;
        }
        var provider := Resolve(bsrResolverMap[name], backend, datasetPath);
        ResolveOnMeaning(bsrResolverMap[name], backend.fleet, datasetPath);
        if provider.Done? {
          return Found(Target(datasetPath, provider.value, name));
        }
      }
      return Unresolved(NoProvider);
    }

    method ResolveBsrWithZone(params: Params) returns (r: Resolved)
      requires params.zone != "" && Answerable(config.NodeMap, bsrResolverMap, params)
      ensures Answers(config.NodeMap, bsrResolverMap, backend.fleet, params, r)
    {
      var datasetPath := params.datasetPath;
      if |params.configName| > 0 {
        var cfg := config.LookupNode(params.configName);
        if cfg.None? {
          return Unresolved(NodeRemoved);
        }
        if cfg.value.Zone != params.zone {
          return Unresolved(ZoneMismatch);
        }
        if datasetPath == "" {
          datasetPath := cfg.value.DefaultDataset;
        }
        var provider := Resolve(bsrResolverMap[params.configName], backend, datasetPath);
        match provider
        case Done(addr) => return Found(Target(datasetPath, addr, params.configName));
        case Failed(err) => return Unresolved(ProviderError(err));
      }
      var rest := bsrResolverMap.Keys;
      while rest != {}
        invariant rest <= bsrResolverMap.Keys
        invariant forall name :: name in bsrResolverMap && name !in rest ==>
                    !Serves(config.NodeMap, bsrResolverMap, backend.fleet, params, name)
                    && (LooksUp(params) ==> name in config.NodeMap)
        decreases |rest|
      {
        var name :| name in rest;
        rest := rest - {name};
        var cfg := config.LookupNode(name);
        if cfg.None? {
          return Unresolved(NodeRemoved);
        }
        datasetPath := if params.datasetPath == "" then cfg.value.DefaultDataset else params.datasetPath;
        if params.zone == cfg.value.Zone {
          var provider := Resolve(bsrResolverMap[name], backend, datasetPath);
          ResolveOnMeaning(bsrResolverMap[name], backend.fleet, datasetPath);
          if provider.Done? {
            return Found(Target(datasetPath, provider.value, name));
          }
        }
      }
      return Unresolved(NoProvider);
    }

    method ResolveBSR(params: Params) returns (r: Resolved)
      requires Answerable(config.NodeMap, bsrResolverMap, params)
      ensures Answers(config.NodeMap, bsrResolverMap, backend.fleet, params, r)
    {
      if |params.zone| == 0 {
        r := ResolveBsrNoZone(params);
      } else {
        r := ResolveBsrWithZone(params);
      }
    }

    /* -------------------------------------------------------------- listings */

    /** The datasets of all addresses of an entry. */
    method EntryDatasets(configName: string) returns (paths: seq<string>)
      requires configName in config.NodeMap && configName in bsrResolverMap
      ensures paths == PathsOver(backend.fleet, bsrResolverMap[configName], Addresses(config.NodeMap, configName))
    {
      var resolver := bsrResolverMap[configName];
      var addresses := Split(config.NodeMap[configName].Address, ',');
      paths := [];
      var i := 0;
      while i < |addresses|
        invariant i <= |addresses| && paths == PathsOver(backend.fleet, resolver, addresses[..i])
      {
        PathsOverSnoc(backend.fleet, resolver, addresses, i);
        var addr := addresses[i];
        i := i + 1;
        var provider := ResolveByAddress(resolver, addr);
        if provider.None? {
          continue;
        }
        var nodeDatasets := backend.GetDatasets(addr);
        if nodeDatasets.Failed? || |nodeDatasets.value| == 0 {
          continue;
        }
        var more := PathsIn(nodeDatasets.value);
        assert more == UsablePaths(backend.fleet[addr]);
        paths := paths + more;
      }
      assert addresses[..i] == addresses;
    }

    static function PathsIn(datasets: seq<DatasetInfo>): seq<string> {
      seq(|datasets|, i requires 0 <= i < |datasets| => datasets[i].Path)
    }

    /** One page of the volume listing: entries of one node, with a token for the rest of
        that node or for the next one. */
    method ListVolumes(startingToken: string, requested: int) returns (r: Result<Page<string>>)
      requires Ready()
      ensures Known(config.NodeMap, bsrResolverMap, Sorted(config.NodeMap.Keys))
      ensures r == Request(Sorted(config.NodeMap.Keys),
                           VolumeLists(config.NodeMap, bsrResolverMap, backend.fleet, Sorted(config.NodeMap.Keys)),
                           startingToken, requested, false)
    {
      SortedKnown(config.NodeMap, bsrResolverMap);
      var maxEntries := requested;
      if maxEntries < 0 {
        return Err(InvalidArgument);
      }
      if maxEntries == 0 {
        maxEntries := 2_000_000_000;
      }
      var nodes := config.NodeNames();
      var paging := GetPagingValues(startingToken, nodes);
      if paging.Err? {
        return Err(paging.code);
      }
      ghost var lists := VolumeLists(config.NodeMap, bsrResolverMap, backend.fleet, nodes);
      var page := VolumePage(nodes, lists, paging.value.node, paging.value.offset, maxEntries);
      return Ok(page);
    }

    /** Passes over nodes without datasets and cuts a page from the first other one. */
    method VolumePage(nodes: seq<string>, ghost lists: seq<seq<string>>, first: nat, offset: int, maxEntries: nat)
      returns (page: Page<string>)
      requires Known(config.NodeMap, bsrResolverMap, nodes) && maxEntries >= 1 && |lists| == |nodes|
      requires forall i :: 0 <= i < |nodes| ==>
                 lists[i] == EntryVolumes(config.NodeMap, bsrResolverMap, backend.fleet, nodes[i])
      ensures page == PageAt(nodes, lists, first, offset, maxEntries, false)
    {
      var nodeIndex := first;
      ghost var goal := PageAt(nodes, lists, first, offset, maxEntries, false);
      while nodeIndex < |nodes|
        invariant goal == PageAt(nodes, lists, nodeIndex, offset, maxEntries, false)
      {
        var ids := EntryVolumeIds(nodes[nodeIndex]);
        PageStep(nodes, lists, nodeIndex, ids, offset, maxEntries, false);
        if |ids| != 0 {
          page := CutPage(nodes, nodeIndex, ids, offset, maxEntries, false);
          return;
        }
        nodeIndex := nodeIndex + 1;
      }
      page := Page([], "");
    }

    method EntryVolumeIds(configName: string) returns (ids: seq<string>)
      requires configName in config.NodeMap && configName in bsrResolverMap
      ensures ids == EntryVolumes(config.NodeMap, bsrResolverMap, backend.fleet, configName)
    {
      var datasets := EntryDatasets(configName);
      ids := VolumeIds(configName, datasets);
    }

    /** The paths of listed datasets that lie below a default dataset. */
    static method PathsBelow(datasets: seq<DatasetInfo>, top: string) returns (names: seq<string>)
      ensures names == Below(PathsIn(datasets), top)
    {
      names := [];
      var i := 0;
      ghost var paths := PathsIn(datasets);
      while i < |datasets|
        invariant i <= |datasets| && names == Below(paths[..i], top)
      {
        BelowSnoc(paths, top, i);
        if HasPrefix(datasets[i].Path, top + "/") {
          names := names + [datasets[i].Path];
        }
        i := i + 1;
      }
      assert paths[..i] == paths;
    }

    /** The snapshots of the datasets below a default one at one address. */
    method ScanAddress(addr: string, top: string) returns (snaps: seq<Snapshot>)
      ensures snaps == if addr in backend.fleet then
                         SnapsOfAll(backend.fleet[addr], Below(UsablePaths(backend.fleet[addr]), top))
                       else []
    {
      var datasets := backend.GetDatasets(addr);
      if datasets.Failed? {
        return [];
      }
      var dsNames := PathsBelow(datasets.value, top);
      assert PathsIn(datasets.value) == UsablePaths(backend.fleet[addr]);
      var found := backend.GetSnapshots(addr, dsNames);
      if found.Failed? {
        return [];
      }
      return found.value;
    }

    static method KeepVisible(snaps: seq<Snapshot>) returns (kept: seq<Snapshot>)
      ensures kept == Visible(snaps)
    {
      kept := [];
      var i := 0;
      while i < |snaps|
        invariant i <= |snaps| && kept == Visible(snaps[..i])
      {
        VisibleNext(snaps, i);
        if snaps[i].CreatedBy != "" {
          kept := kept + [snaps[i]];
        }
        i := i + 1;
      }
      assert snaps[..i] == snaps;
    }

    /** The visible snapshots of all addresses of an entry. */
    method EntrySnapshots(configName: string) returns (entries: seq<CsiSnapshot>)
      requires configName in config.NodeMap && configName in bsrResolverMap
      ensures entries == EntrySnaps(config.NodeMap, bsrResolverMap, backend.fleet, configName)
    {
      var resolver := bsrResolverMap[configName];
      var addresses := Split(config.NodeMap[configName].Address, ',');
      var top := config.NodeMap[configName].DefaultDataset;
      var snapshots: seq<Snapshot> := [];
      var i := 0;
      while i < |addresses|
        invariant i <= |addresses| && snapshots == SnapsOver(backend.fleet, resolver, addresses[..i], top)
      {
        SnapsOverSnoc(backend.fleet, resolver, addresses, top, i);
        var addr := addresses[i];
        i := i + 1;
        var provider := ResolveByAddress(resolver, addr);
        if provider.None? {
          continue;
        }
        var snaps := ScanAddress(addr, top);
        var kept := KeepVisible(snaps);
        snapshots := snapshots + kept;
      }
      assert addresses[..i] == addresses;
      return ConvertAll(snapshots, configName);
    }

    /** Passes over nodes without snapshots and cuts a page from the first other one. */
    method SnapshotPage(nodes: seq<string>, ghost lists: seq<seq<CsiSnapshot>>, first: nat, offset: int,
                        maxEntries: nat)
      returns (page: Page<CsiSnapshot>)
      requires Known(config.NodeMap, bsrResolverMap, nodes) && maxEntries >= 1 && |lists| == |nodes|
      requires forall i :: 0 <= i < |nodes| ==>
                 lists[i] == EntrySnaps(config.NodeMap, bsrResolverMap, backend.fleet, nodes[i])
      ensures page == PageAt(nodes, lists, first, offset, maxEntries, true)
    {
      var nodeIndex := first;
      ghost var goal := PageAt(nodes, lists, first, offset, maxEntries, true);
      while nodeIndex < |nodes|
        invariant goal == PageAt(nodes, lists, nodeIndex, offset, maxEntries, true)
      {
        var entries := EntrySnapshots(nodes[nodeIndex]);
        PageStep(nodes, lists, nodeIndex, entries, offset, maxEntries, true);
        if |entries| != 0 {
          page := CutPage(nodes, nodeIndex, entries, offset, maxEntries, true);
          return;
        }
        nodeIndex := nodeIndex + 1;
      }
      page := Page([], "");
    }

    /** The reply to a request for all snapshots. */
    ghost predicate AllSnapshotsReply(token: string, requested: int, r: Result<Page<CsiSnapshot>>)
      requires Known(config.NodeMap, bsrResolverMap, Sorted(config.NodeMap.Keys))
      reads this, config, backend
    {
      var nodes := Sorted(config.NodeMap.Keys);
      r == Request(nodes, SnapLists(config.NodeMap, bsrResolverMap, backend.fleet, nodes), token, requested, true)
    }

    /** The reply to a request for the snapshots of one volume, resolved to `at`. */
    ghost predicate VolumeSnapshotsReply(volumeId: string, token: string, maxEntries: int,
                                         r: Result<Page<CsiSnapshot>>, at: Resolved)
      reads this, config, backend
    {
      VolumeSnapsReply(config.NodeMap, bsrResolverMap, backend.fleet, volumeId, token, maxEntries, r, at)
    }

    /** The reply to a request for one snapshot, resolved to `at`. */
    ghost predicate SingleSnapshotReply(snapshotId: string, r: Result<seq<CsiSnapshot>>, at: Resolved)
      reads this, config, backend
    {
      if SplitSnapshotId(snapshotId).None? then r == Ok([])
      else if !SnapTargeted(snapshotId) then r == Err(InvalidArgument)
      else
        && Answers(config.NodeMap, bsrResolverMap, backend.fleet, SnapIdParams(snapshotId), at)
        && r == SingleReply(backend.fleet, at, SnapIdParams(snapshotId).datasetPath,
                            SplitSnapshotId(snapshotId).value.1)
    }

    /** One page of the listing of all snapshots. */
    method ListAllSnapshots(startingToken: string, requested: int) returns (r: Result<Page<CsiSnapshot>>)
      requires Ready()
      ensures Known(config.NodeMap, bsrResolverMap, Sorted(config.NodeMap.Keys))
      ensures AllSnapshotsReply(startingToken, requested, r)
    {
      SortedKnown(config.NodeMap, bsrResolverMap);
      var maxEntries := requested;
      if maxEntries < 0 {
        return Err(InvalidArgument);
      }
      if maxEntries == 0 {
        maxEntries := 2_000_000_000;
      }
      var nodes := config.NodeNames();
      var paging := GetPagingValues(startingToken, nodes);
      if paging.Err? {
        return Err(paging.code);
      }
      ghost var lists := SnapLists(config.NodeMap, bsrResolverMap, backend.fleet, nodes);
      var page := SnapshotPage(nodes, lists, paging.value.node, paging.value.offset, maxEntries);
      return Ok(page);
    }

    /** The snapshots of one volume, a page at a time; a volume that cannot be resolved has none. */
    method GetDsSnapList(volumeId: string, startingToken: string, maxEntries: int)
      returns (r: Result<Page<CsiSnapshot>>, ghost at: Resolved)
      requires Answerable(config.NodeMap, bsrResolverMap, DsSnapParams(volumeId))
      ensures VolumeSnapshotsReply(volumeId, startingToken, maxEntries, r, at)
      ensures r.Ok? && (maxEntries > 0 ==> |r.value.entries| <= maxEntries)
    {
      var params := DsSnapParams(volumeId);
      var resolved := ResolveBSR(params);
      at := resolved;
      if resolved.Unresolved? {
        return Ok(Page([], "")), at;
      }
      var t := resolved.target;
      FoundIsHosted(config.NodeMap, bsrResolverMap, backend.fleet, params, t);
      var snapshots := backend.GetSnapshots(t.addr, [params.datasetPath]);
      if snapshots.Failed? {
        return Err(Internal), at;
      }
      OneDataset(backend.fleet[t.addr], params.datasetPath);
      var page := ListVolumeSnaps(snapshots.value, startingToken, maxEntries);
      if maxEntries > 0 {
        PageLimit(snapshots.value, StartOf(snapshots.value, startingToken), 0, maxEntries);
      }
      return Ok(Page(ConvertAll(page.entries, t.configName), page.next)), at;
    }

    /** The one snapshot with an id, if there is one. */
    method GetSingleSnap(snapshotId: string) returns (r: Result<seq<CsiSnapshot>>, ghost at: Resolved)
      requires SnapTargeted(snapshotId) ==> Answerable(config.NodeMap, bsrResolverMap, SnapIdParams(snapshotId))
      ensures SingleSnapshotReply(snapshotId, r, at)
      ensures r.Ok? ==> |r.value| <= 1
      ensures SplitSnapshotId(snapshotId).None? ==> r == Ok([])
    {
      at := Unresolved(NoProvider);
      var flds := Split(snapshotId, '@');
      if |flds| != 2 {
        return Ok([]), at;
      }
      var volInfo := ParseVolumeID(flds[0]);
      if volInfo.Err? {
        return Err(volInfo.code), at;
      }
      var params := Params(volInfo.value.Path, "", volInfo.value.ConfigName);
      var resolved := ResolveBSR(params);
      at := resolved;
      if resolved.Unresolved? {
        if ErrorCode(resolved.err) == NotFound {
          return Ok([]), at;
        }
        return Err(ErrorCode(resolved.err)), at;
      }
      var snapshot := backend.GetSnapshot(resolved.target.addr, SnapPath(volInfo.value.Path, flds[1]));
      match snapshot
      case Done(snap) => return Ok([ConvertSnap(snap, resolved.target.configName)]), at;
      case Failed(e) =>
        if e == NotExist {
          return Ok([]), at;
        }
        return Err(Internal), at;
    }

    /** Lists one snapshot, those of one volume, or all, by what the request names. */
    method ListSnapshots(snapshotId: string, sourceVolumeId: string, startingToken: string, maxEntries: int)
      returns (r: Result<Page<CsiSnapshot>>, ghost at: Resolved)
      requires Ready()
      requires snapshotId != "" && SnapTargeted(snapshotId) ==>
                 Answerable(config.NodeMap, bsrResolverMap, SnapIdParams(snapshotId))
      requires snapshotId == "" && sourceVolumeId != "" ==>
                 Answerable(config.NodeMap, bsrResolverMap, DsSnapParams(sourceVolumeId))
      ensures Known(config.NodeMap, bsrResolverMap, Sorted(config.NodeMap.Keys))
      ensures snapshotId != "" ==>
                && (r.Ok? ==> r.value.next == "")
                && SingleSnapshotReply(snapshotId, if r.Ok? then Ok(r.value.entries) else Err(r.code), at)
      ensures snapshotId == "" && sourceVolumeId != "" ==>
                VolumeSnapshotsReply(sourceVolumeId, startingToken, maxEntries, r, at)
      ensures snapshotId == "" && sourceVolumeId == "" ==> AllSnapshotsReply(startingToken, maxEntries, r)
    {
      SortedKnown(config.NodeMap, bsrResolverMap);
      at := Unresolved(NoProvider);
      if snapshotId != "" {
        var single;
        single, at := GetSingleSnap(snapshotId);
        if single.Err? {
          return Err(single.code), at;
        }
        return Ok(Page(single.value, "")), at;
      }
      if sourceVolumeId != "" {
        r, at := GetDsSnapList(sourceVolumeId, startingToken, maxEntries);
        return;
      }
      r := ListAllSnapshots(startingToken, maxEntries);
    }

    /* -------------------------------------------------------------- snapshots */

    /** Looks the name up among the snapshots below the entry's default dataset. */
    method DuplicateName(t: Target, volumePath: string, snapName: string) returns (taken: bool)
      requires t.addr in backend.fleet
      ensures taken <==> t.configName in config.NodeMap
                         && NameTaken(backend.fleet[t.addr], config.NodeMap[t.configName].DefaultDataset,
                                      volumePath, snapName)
    {
      var configEntry := config.LookupNode(t.configName);
      if configEntry.None? {
        return false;
      }
      var snaps := ScanAddress(t.addr, configEntry.value.DefaultDataset);
      ScanDecides(backend.fleet[t.addr], configEntry.value.DefaultDataset, volumePath, snapName);
      taken := OnAnotherVolume(snaps, volumePath, snapName);
    }

    static method OnAnotherVolume(snaps: seq<Snapshot>, volumePath: string, snapName: string) returns (taken: bool)
      ensures taken <==> exists s: Snapshot :: s in snaps && s.Path != volumePath && s.Name == snapName
    {
      var i := 0;
      while i < |snaps|
        invariant i <= |snaps|
        invariant forall k :: 0 <= k < i ==> snaps[k].Path == volumePath || snaps[k].Name != snapName
      {
        if volumePath == snaps[i].Path {
          i := i + 1;
          continue;
        }
        if snapName == snaps[i].Name {
          assert snaps[i] in snaps;
          return true;
        }
        i := i + 1;
      }
      return false;
    }

    method CreateSnapshotOnBSR(t: Target, volumePath: string, snapName: string, m: Moment) returns (r: Result<Snapshot>)
      modifies backend
      ensures (r, backend.fleet) == SnapshotVolume(config.NodeMap, old(backend.fleet), t, volumePath, snapName, m)
    {
      var volume := backend.GetDataset(t.addr, volumePath);
      if volume.Failed? {
        return Err(NotFound);
      }
      var snapshotPath := SnapPath(volumePath, snapName);
      var existing := backend.GetSnapshot(t.addr, snapshotPath);
      if existing.Done? {
        return Ok(existing.value);
      }
      var taken := DuplicateName(t, volumePath, snapName);
      if taken {
        return Err(AlreadyExists);
      }
      var created := backend.CreateSnapshot(t.addr, volumePath, snapName, m.user, m.now);
      if created.Failed? {
        return Err(Internal);
      }
      return Ok(created.value);
    }

    /** Takes a snapshot; asking again for the same one gives the same reply. */
    method CreateSnapshot(sourceVolumeId: string, name: string, m: Moment)
      returns (r: Result<CsiSnapshot>, ghost at: Resolved)
      requires sourceVolumeId != "" && name != "" && ParseVolumeID(sourceVolumeId).Ok? ==>
                 Answerable(config.NodeMap, bsrResolverMap, VolumeParams(ParseVolumeID(sourceVolumeId).value))
      modifies backend
      ensures sourceVolumeId == "" || name == "" || ParseVolumeID(sourceVolumeId).Err? ==>
                r == Err(InvalidArgument) && backend.fleet == old(backend.fleet)
      ensures sourceVolumeId != "" && name != "" && ParseVolumeID(sourceVolumeId).Ok? ==>
                var info := ParseVolumeID(sourceVolumeId).value;
                && Answers(config.NodeMap, bsrResolverMap, old(backend.fleet), VolumeParams(info), at)
                && (r, backend.fleet)
                   == TakeSnapshotReply(config.NodeMap, old(backend.fleet), at, sourceVolumeId, info.Path, name, m)
    {
      at := Unresolved(NoProvider);
      if |sourceVolumeId| == 0 {
        return Err(InvalidArgument), at;
      }
      var volInfo := ParseVolumeID(sourceVolumeId);
      if volInfo.Err? {
        return Err(volInfo.code), at;
      }
      if |name| == 0 {
        return Err(InvalidArgument), at;
      }
      var resolved := ResolveBSR(VolumeParams(volInfo.value));
      at := resolved;
      if resolved.Unresolved? {
        return Err(ErrorCode(resolved.err)), at;
      }
      var created := CreateSnapshotOnBSR(resolved.target, volInfo.value.Path, name, m);
      if created.Err? {
        return Err(created.code), at;
      }
      var snapshotId := SnapshotId(resolved.target.configName, volInfo.value.Path, name);
      return Ok(CsiSnapshot(snapshotId, sourceVolumeId, created.value.CreationTime)), at;
    }

    /** Deletes a snapshot; one that is not there counts as deleted. */
    method DeleteSnapshot(snapshotId: string) returns (r: Result<()>, ghost at: Resolved)
      requires SnapTargeted(snapshotId) ==> Answerable(config.NodeMap, bsrResolverMap, SnapIdParams(snapshotId))
      modifies backend
      ensures snapshotId == "" ==> r == Err(InvalidArgument)
      ensures snapshotId != "" && SplitSnapshotId(snapshotId).None? ==> r == Ok(())
      ensures SplitSnapshotId(snapshotId).Some? && !SnapTargeted(snapshotId) ==> r == Err(InvalidArgument)
      ensures !SnapTargeted(snapshotId) ==> backend.fleet == old(backend.fleet)
      ensures SnapTargeted(snapshotId) ==>
                && Answers(config.NodeMap, bsrResolverMap, old(backend.fleet), SnapIdParams(snapshotId), at)
                && (r, backend.fleet) == DropSnapshotReply(old(backend.fleet), at, SnapIdParams(snapshotId).datasetPath,
                                                           SplitSnapshotId(snapshotId).value.1)
    {
      at := Unresolved(NoProvider);
      if |snapshotId| == 0 {
        return Err(InvalidArgument), at;
      }
      var splittedString := Split(snapshotId, '@');
      if |splittedString| != 2 {
        return Ok(()), at;
      }
      var volInfo := ParseVolumeID(splittedString[0]);
      if volInfo.Err? {
        return Err(volInfo.code), at;
      }
      var resolved := ResolveBSR(VolumeParams(volInfo.value));
      at := resolved;
      if resolved.Unresolved? {
        if ErrorCode(resolved.err) == NotFound {
          return Ok(()), at;
        }
        return Err(ErrorCode(resolved.err)), at;
      }
      var gone := backend.DestroySnapshot(resolved.target.addr, SnapPath(volInfo.value.Path, splittedString[1]));
      if gone.Failed? && gone.err != NotExist {
        return Err(Internal), at;
      }
      return Ok(()), at;
    }

    /* -------------------------------------------------------------- volumes */

    method CreateNewVol(addr: string, volumePath: string, capacityBytes: int) returns (r: Result<()>)
      modifies backend
      ensures (r, backend.fleet) == BlankVolume(old(backend.fleet), addr, volumePath, capacityBytes)
      ensures r.Ok? ==> Hosts(backend.fleet, addr, volumePath)
      ensures OnlyChanges(backend.fleet, old(backend.fleet), addr, volumePath)
      ensures r.Err? || Hosts(old(backend.fleet), addr, volumePath) ==> backend.fleet == old(backend.fleet)
      ensures r.Ok? && !Hosts(old(backend.fleet), addr, volumePath) ==>
                backend.fleet[addr].datasets[volumePath] == Dataset("", Quota(capacityBytes), None, map[])
    {
      var created := backend.CreateDataset(addr, volumePath, capacityBytes);
      if created.Failed? {
        if created.err == Exists {
          var ds := backend.GetDataset(addr, volumePath);
          if ds.Failed? {
            return Err(Internal);
          }
          if capacityBytes != 0 && ds.value.GetRefQuotaSize() < capacityBytes {
            return Err(AlreadyExists);
          }
          return Ok(());
        }
        return Err(Internal);
      }
      return Ok(());
    }

    method CreateNewVolFromSnap(addr: string, snapName: string, volumePath: string, capacityBytes: int)
      returns (r: Result<()>)
      modifies backend
      ensures (r, backend.fleet) == VolumeFromSnapshot(old(backend.fleet), addr, snapName, volumePath, capacityBytes)
      ensures r.Ok? ==> Hosts(backend.fleet, addr, volumePath) && SnapshotAt(old(backend.fleet), addr, snapName).Some?
      ensures OnlyChanges(backend.fleet, old(backend.fleet), addr, volumePath)
      ensures r.Err? || Hosts(old(backend.fleet), addr, volumePath) ==> backend.fleet == old(backend.fleet)
    {
      var snapshot := backend.GetSnapshot(addr, snapName);
      if snapshot.Failed? {
        return Err(NotFound);
      }
      var cloned := backend.CloneSnapshot(addr, snapshot.value.Path, volumePath, capacityBytes);
      if cloned.Failed? {
        if cloned.err == Exists {
          return Ok(());
        }
        return Err(Internal);
      }
      return Ok(());
    }

    method CreateClonedVol(t: Target, sourceVolume: string, volumePath: string, volumeName: string, capacityBytes: int,
                           m: Moment) returns (r: Result<()>)
      modifies backend
      ensures (r, backend.fleet)
              == ClonedVolume(config.NodeMap, old(backend.fleet), t, sourceVolume, volumePath, volumeName,
                              capacityBytes, m)
      ensures r.Ok? ==> Hosts(backend.fleet, t.addr, volumePath) && Hosts(old(backend.fleet), t.addr, sourceVolume)
      ensures RunLaws.DataStays(backend.fleet, old(backend.fleet))
      ensures RunLaws.AddsAtMost(backend.fleet, old(backend.fleet), t.addr, volumePath)
    {
      CloneEffect(t, sourceVolume, volumePath, volumeName, capacityBytes, m);
      var snapName := "k8s-clone-snapshot-" + volumeName;
      var snap := CreateSnapshotOnBSR(t, sourceVolume, snapName, m);
      if snap.Err? {
        return Err(snap.code);
      }
      var cloned := backend.CloneSnapshot(t.addr, SnapPath(sourceVolume, snapName), volumePath, capacityBytes);
      if cloned.Failed? {
        if cloned.err == Exists {
          return Ok(());
        }
        return Err(NotFound);
      }
      return Ok(());
    }

    /** What a clone leaves alone. */
    lemma CloneEffect(t: Target, source: string, path: string, name: string, capacity: int, m: Moment)
      ensures var (r, after) := ClonedVolume(config.NodeMap, backend.fleet, t, source, path, name, capacity, m);
              && (r.Ok? ==> Hosts(after, t.addr, path) && Hosts(backend.fleet, t.addr, source))
              && RunLaws.DataStays(after, backend.fleet) && RunLaws.AddsAtMost(after, backend.fleet, t.addr, path)
    {
      var mid := SnapshotVolume(config.NodeMap, backend.fleet, t, source, CloneSnapName(name), m).1;
      RunLaws.SnapshotKeepsData(config.NodeMap, backend.fleet, t, source, CloneSnapName(name), m);
      RunLaws.SnapshotKeepsHosts(config.NodeMap, backend.fleet, t, source, CloneSnapName(name), m);
      RunLaws.CloneKeepsData(mid, t.addr, SnapPath(source, CloneSnapName(name)), path, capacity);
      RunLaws.CloneAdds(mid, t.addr, SnapPath(source, CloneSnapName(name)), path, capacity);
      RunLaws.DataStaysOn(ClonedVolume(config.NodeMap, backend.fleet, t, source, path, name, capacity, m).1,
                          mid, backend.fleet);
    }

    /** The resolution a create request asks for, or why there is none. */
    method CreateTarget(req: CreateRequest, zone: string) returns (r: Result<Params>)
      ensures r == CreateParams(config.NodeMap, req, zone)
    {
      var params := Params(req.dataset, zone, req.configName);
      if req.source.Some? {
        if req.source.value.OtherSource? {
          return Err(InvalidArgument);
        }
        if req.source.value.id != "" {
          var volInfo := ParseVolumeID(req.source.value.id);
          if volInfo.Err? {
            return Err(NotFound);
          }
          return Ok(params.(configName := volInfo.value.ConfigName));
        }
      }
      if params.datasetPath == "" && params.configName == "" {
        var nodes := config.NodeNames();
        if |nodes| == 0 {
          return Err(NotFound);
        }
        params := params.(configName := nodes[0]);
      }
      return Ok(params);
    }

    /** Makes the volume of a resolved request. */
    method Make(req: CreateRequest, t: Target, m: Moment) returns (r: Result<()>)
      modifies backend
      ensures (r, backend.fleet) == MakeVolume(config.NodeMap, old(backend.fleet), t, req, m)
    {
      var volumePath := JoinPath(t.datasetPath, req.name);
      if req.source.Some? && !req.source.value.OtherSource? && req.source.value.id != "" {
        var volInfo := ParseVolumeID(req.source.value.id);
        if volInfo.Ok? {
          if req.source.value.FromSnapshot? {
            r := CreateNewVolFromSnap(t.addr, volInfo.value.Path, volumePath, req.capacity);
          } else {
            r := CreateClonedVol(t, SourceDataset(t.datasetPath, volInfo.value.Path), volumePath, req.name,
                                 req.capacity, m);
          }
          return;
        }
      }
      r := CreateNewVol(t.addr, volumePath, req.capacity);
    }

    /** Refused before anything is resolved. */
    static function Refusal(req: CreateRequest): Option<Code> {
      if req.name == "" || req.capabilities == NotGiven then Some(InvalidArgument)
      else if req.capabilities == Unsupported then Some(FailedPrecondition)
      else None
    }

    /** Creates a volume, blank or from a source, and shares it if asked to. */
    method CreateVolume(req: CreateRequest, m: Moment) returns (r: Result<Volume>, ghost at: Resolved)
      requires Refusal(req).None? && CreateParams(config.NodeMap, req, ZoneOf(req.topology)).Ok? ==>
                 Answerable(config.NodeMap, bsrResolverMap,
                     CreateParams(config.NodeMap, req, ZoneOf(req.topology)).value)
      modifies backend
      ensures Refusal(req).Some? ==> r == Err(Refusal(req).value) && backend.fleet == old(backend.fleet)
      ensures Refusal(req).None? ==>
                match CreateParams(config.NodeMap, req, ZoneOf(req.topology))
                case Err(code) => r == Err(code) && backend.fleet == old(backend.fleet)
                case Ok(params) =>
                  && Answers(config.NodeMap, bsrResolverMap, old(backend.fleet), params, at)
                  && (r, backend.fleet)
                     == CreateReply(config.NodeMap, old(backend.fleet), at, req, ZoneOf(req.topology), m)
    {
      at := Unresolved(NoProvider);
      if |req.name| == 0 || req.capabilities == NotGiven {
        return Err(InvalidArgument), at;
      }
      if req.capabilities == Unsupported {
        return Err(FailedPrecondition), at;
      }
      var zone := PickAvailabilityZone(req.topology);
      var params := CreateTarget(req, zone);
      if params.Err? {
        return Err(params.code), at;
      }
      var resolved := ResolveBSR(params.value);
      at := resolved;
      if resolved.Unresolved? {
        return Err(ErrorCode(resolved.err)), at;
      }
      var t := resolved.target;
      var made := Make(req, t, m);
      if made.Err? {
        return Err(made.code), at;
      }
      var cfg := config.LookupNode(t.configName);
      if cfg.None? {
        return Err(NotFound), at;
      }
      if req.nfsAccessList.Some? {
        var shared := backend.CreateNfsShare(t.addr, JoinPath(t.datasetPath, req.name), req.nfsAccessList.value);
        if shared.Failed? {
          return Err(Unknown), at;
        }
      }
      return Ok(VolumeReply(config.NodeMap, t, req, zone)), at;
    }

    /** Deletes a volume; one that is not found counts as deleted. */
    method DeleteVolume(volumeId: string) returns (r: Result<()>, ghost at: Resolved)
      requires volumeId != "" && ParseVolumeID(volumeId).Ok? ==>
                 Answerable(config.NodeMap, bsrResolverMap, VolumeParams(ParseVolumeID(volumeId).value))
      modifies backend
      ensures (r, backend.fleet) == DeleteIdReply(old(backend.fleet), volumeId, at)
      ensures volumeId != "" && ParseVolumeID(volumeId).Ok? ==>
                Answers(config.NodeMap, bsrResolverMap, old(backend.fleet),
                    VolumeParams(ParseVolumeID(volumeId).value), at)
    {
      at := Unresolved(NoProvider);
      if |volumeId| == 0 {
        return Err(InvalidArgument), at;
      }
      var volInfo := ParseVolumeID(volumeId);
      if volInfo.Err? {
        return Ok(()), at;
      }
      var resolved := ResolveBSR(VolumeParams(volInfo.value));
      at := resolved;
      if resolved.Unresolved? {
        if MentionsNotFound(resolved.err) {
          return Ok(()), at;
        }
        return Err(ErrorCode(resolved.err)), at;
      }
      var gone := backend.DestroyDataset(resolved.target.addr, volInfo.value.Path);
      if gone.Failed? && gone.err != NotExist {
        return Err(Internal), at;
      }
      return Ok(()), at;
    }

    /** Gives a volume a new quota. */
    method ControllerExpandVolume(volumeId: string, capacityBytes: int) returns (r: Result<int>, ghost at: Resolved)
      requires capacityBytes != 0 && volumeId != "" && ParseVolumeID(volumeId).Ok? ==>
                 Answerable(config.NodeMap, bsrResolverMap, VolumeParams(ParseVolumeID(volumeId).value))
      modifies backend
      ensures capacityBytes == 0 || volumeId == "" || ParseVolumeID(volumeId).Err? ==>
                r == Err(InvalidArgument) && backend.fleet == old(backend.fleet)
      ensures capacityBytes != 0 && volumeId != "" && ParseVolumeID(volumeId).Ok? ==>
                var info := ParseVolumeID(volumeId).value;
                && Answers(config.NodeMap, bsrResolverMap, old(backend.fleet), VolumeParams(info), at)
                && match at
                   case Unresolved(e) => r == Err(ErrorCode(e)) && backend.fleet == old(backend.fleet)
                   case Found(t) => (r, backend.fleet) == ExpandOn(old(backend.fleet), t, info.Path, capacityBytes)
    {
      at := Unresolved(NoProvider);
      if capacityBytes == 0 || |volumeId| == 0 {
        return Err(InvalidArgument), at;
      }
      var volInfo := ParseVolumeID(volumeId);
      if volInfo.Err? {
        return Err(volInfo.code), at;
      }
      var resolved := ResolveBSR(VolumeParams(volInfo.value));
      at := resolved;
      if resolved.Unresolved? {
        return Err(ErrorCode(resolved.err)), at;
      }
      var updated := backend.UpdateDataset(resolved.target.addr, volInfo.value.Path, capacityBytes);
      if updated.Failed? {
        return Err(Unknown), at;
      }
      return Ok(capacityBytes), at;
    }
  }

  lemma OneDataset(node: Node, path: string)
    ensures SnapsOfAll(node, [path]) == SnapsOf(node, path)
  {
    assert [path][1..] == [];
    assert SnapsOfAll(node, []) == [];
  }

  /** A create request without a name or capabilities is an invalid argument, one with
      unsupported capabilities fails its precondition, and no other is refused out of hand. */
  lemma RefusalCodes(req: CreateRequest)
    ensures req.name == "" || req.capabilities.NotGiven? ==> ControllerServer.Refusal(req) == Some(InvalidArgument)
    ensures req.name != "" && req.capabilities.Unsupported? ==>
              ControllerServer.Refusal(req) == Some(FailedPrecondition)
    ensures req.name != "" && req.capabilities.Supported? ==> ControllerServer.Refusal(req) == None
  {
  }
}
