/** Case by case, whether a call on its resolved target succeeds and with which code it fails. */
module OutcomeLaws {
  import opened Text
  import opened Status
  import opened Storage
  import opened Configuration
  import opened Resolution
  import opened Provision
  import opened RunLaws
  import opened VolumeLaws
  import opened ContentLaws

  /* ---------------------------------------------------------------- creating volumes */

  /** Nobody to ask: no entry is configured and none is named. */
  lemma NobodyAsked(conf: NodeMap, req: CreateRequest, zone: string)
    requires IsBlank(req) && req.dataset == "" && req.configName == "" && conf == map[]
    ensures CreateParams(conf, req, zone) == Err(NotFound)
  {
    SortedUnique([], Sorted(conf.Keys), {});
    assert conf.Keys == {};
  }

  /** Once the volume is made the request succeeds, shared or not, unless its entry is gone. */
  lemma ReplyAsMade(conf: NodeMap, fleet: Fleet, t: Target, req: CreateRequest, zone: string, m: Moment)
    ensures var made := MakeVolume(conf, fleet, t, req, m).0;
            var (r, after) := CreateOn(conf, fleet, t, req, zone, m);
            match made
            case Err(code) => r == Err(code) && after == MakeVolume(conf, fleet, t, req, m).1
            case Ok(_) =>
              if t.configName in conf then r.Ok?
              else r == Err(NotFound) && after == MakeVolume(conf, fleet, t, req, m).1
  {
    if MakeVolume(conf, fleet, t, req, m).0.Ok? {
      MadeIsThere(conf, fleet, t, req, m);
    }
  }

  /** A blank volume is made on a new path that can be created; an existing one will do when no
      size is asked for or it has enough, which is its quota, or without one the space there
      is, or zero for a path the driver does not list. */
  lemma BlankOutcome(conf: NodeMap, fleet: Fleet, t: Target, req: CreateRequest, zone: string, m: Moment)
    requires IsBlank(req) && t.addr in fleet && t.configName in conf
    ensures var path, r := t.datasetPath + "/" + req.name, CreateOn(conf, fleet, t, req, zone, m).0;
            if '@' in path then r == Err(Internal)
            else if path in fleet[t.addr].datasets then
              var quota := fleet[t.addr].datasets[path].quota;
              var size := if !Usable(path) then 0 else if quota > 0 then quota else fleet[t.addr].space;
              if req.capacity == 0 || req.capacity <= size then r.Ok? else r == Err(AlreadyExists)
            else r.Ok?
  {
    BlankMakes(conf, fleet, t, req, m);
    ReplyAsMade(conf, fleet, t, req, zone, m);
  }

  /** A restore needs the snapshot; onto an existing volume it always succeeds, and for a new
      one it needs a name that can be created in the pool of the snapshot. */
  lemma RestoreOutcome(conf: NodeMap, fleet: Fleet, t: Target, req: CreateRequest, zone: string, m: Moment,
                       entry: string, path: string, name: string)
    requires req.source == Some(FromSnapshot(entry + ":" + path + "@" + name))
    requires '@' !in path && '@' !in name && ':' !in entry && ':' !in path && ':' !in name
    requires t.addr in fleet && t.configName in conf
    ensures var target, r := t.datasetPath + "/" + req.name, CreateOn(conf, fleet, t, req, zone, m).0;
            if !Hosts(fleet, t.addr, path) || name !in fleet[t.addr].datasets[path].snaps then r == Err(NotFound)
            else if '@' in target || path == "" then r == Err(Internal)
            else if target in fleet[t.addr].datasets || PoolOf(path) == PoolOf(target) then r.Ok?
            else r == Err(Internal)
    ensures CreateOn(conf, fleet, t, req, zone, m).0.Err? ==> CreateOn(conf, fleet, t, req, zone, m).1 == fleet
  {
    RestoreIdParts(entry, path, name);
    RestoreMakes(conf, fleet, t, req, m);
    ReplyAsMade(conf, fleet, t, req, zone, m);
    SnapPathParts(fleet, t.addr, path, name);
    SplitNone(path, '@');
  }

  /** Taking a snapshot of a volume that is there: an existing one will do, a name in use
      elsewhere or one that cannot be given is refused, and no volume comes or goes. */
  lemma SnapshotOutcome(conf: NodeMap, fleet: Fleet, t: Target, path: string, name: string, m: Moment)
    requires path != "" && '@' !in path && Hosts(fleet, t.addr, path)
    ensures var (r, after) := SnapshotVolume(conf, fleet, t, path, name, m);
            && (if '@' !in name && name in fleet[t.addr].datasets[path].snaps then r.Ok? && after == fleet
                else if t.configName in conf
                        && NameTaken(fleet[t.addr], conf[t.configName].DefaultDataset, path, name) then
                  r == Err(AlreadyExists) && after == fleet
                else if name == "" || '@' in name then r == Err(Internal) && after == fleet
                else r.Ok?)
            && t.addr in after && after[t.addr].datasets.Keys == fleet[t.addr].datasets.Keys
            && (r.Ok? ==> name in after[t.addr].datasets[path].snaps && '@' !in name)
  {
    SnapPathParts(fleet, t.addr, path, name);
    if '@' in name {
      NoSuchSnapshot(fleet, t.addr, path, name);
    }
  }

  lemma NoSuchSnapshot(fleet: Fleet, addr: string, path: string, name: string)
    requires '@' !in path && '@' in name
    ensures SnapshotAt(fleet, addr, SnapPath(path, name)) == None
  {
    SplitCons(path, '@', name);
    SplitInTwo(name, '@');
  }

  lemma CloneOfSnap(fleet: Fleet, addr: string, source: string, name: string, target: string, capacity: int)
    requires source != "" && '@' !in source && '@' !in name && target != ""
    requires Hosts(fleet, addr, source) && name in fleet[addr].datasets[source].snaps
    ensures var r := CloneFromSnap(fleet, addr, SnapPath(source, name), target, capacity).0;
            if '@' in target then r == Err(NotFound)
            else if target in fleet[addr].datasets || PoolOf(source) == PoolOf(target) then r == Ok(())
            else r == Err(NotFound)
  {
    SnapPathParts(fleet, addr, source, name);
  }

  /** A clone needs the source and, unless the source has its snapshot already, the snapshot's
      name to be free; onto an existing volume it then succeeds, and for a new one it needs a
      name that can be created in the pool of the source. */
  lemma CloneOutcome(conf: NodeMap, fleet: Fleet, t: Target, req: CreateRequest, zone: string, m: Moment)
    requires IsClone(req) && t.addr in fleet && t.configName in conf
    requires '@' !in SourceOf(t, req)
    ensures var source, target := SourceOf(t, req), t.datasetPath + "/" + req.name;
            var snap, r := "k8s-clone-snapshot-" + req.name, CreateOn(conf, fleet, t, req, zone, m).0;
            if source == "" || !Hosts(fleet, t.addr, source) then r == Err(NotFound)
            else if ('@' in snap || snap !in fleet[t.addr].datasets[source].snaps)
                    && NameTaken(fleet[t.addr], conf[t.configName].DefaultDataset, source, snap) then
              r == Err(AlreadyExists)
            else if '@' in snap then r == Err(Internal)
            else if '@' in target then r == Err(NotFound)
            else if target in fleet[t.addr].datasets || PoolOf(source) == PoolOf(target) then r.Ok?
            else r == Err(NotFound)
  {
    var source, snap := SourceOf(t, req), "k8s-clone-snapshot-" + req.name;
    CloneMakes(conf, fleet, t, req, m);
    ReplyAsMade(conf, fleet, t, req, zone, m);
    if source != "" && Hosts(fleet, t.addr, source) {
      SnapshotOutcome(conf, fleet, t, source, snap, m);
      var (r, mid) := SnapshotVolume(conf, fleet, t, source, snap, m);
      if r.Ok? {
        CloneOfSnap(mid, t.addr, source, snap, PathOf(t, req), req.capacity);
      }
    }
  }

  /** Whatever a new volume is made from, it has the quota asked for and no snapshots of its
      own, and an existing one keeps both. */
  lemma NewVolume(conf: NodeMap, fleet: Fleet, t: Target, req: CreateRequest, zone: string, m: Moment)
    requires CreateOn(conf, fleet, t, req, zone, m).0.Ok?
    ensures var path, after := t.datasetPath + "/" + req.name, CreateOn(conf, fleet, t, req, zone, m).1;
            && Hosts(after, t.addr, path)
            && var ds := after[t.addr].datasets[path];
            if Hosts(fleet, t.addr, path) then ds.quota == fleet[t.addr].datasets[path].quota
            else ds.quota == (if req.capacity > 0 then req.capacity else 0) && ds.snaps == map[]
  {
    CreatedIsThere(conf, fleet, t, req, zone, m);
    CreateKeepsData(conf, fleet, t, req, zone, m);
    if !Hosts(fleet, t.addr, PathOf(t, req)) {
      MadeSize(conf, fleet, t, req, m);
    }
  }

  lemma MadeSize(conf: NodeMap, fleet: Fleet, t: Target, req: CreateRequest, m: Moment)
    requires MakeVolume(conf, fleet, t, req, m).0.Ok? && !Hosts(fleet, t.addr, PathOf(t, req))
    ensures var path, after := PathOf(t, req), MakeVolume(conf, fleet, t, req, m).1;
            && Hosts(after, t.addr, path) && after[t.addr].datasets[path].snaps == map[]
            && after[t.addr].datasets[path].quota == if req.capacity > 0 then req.capacity else 0
  {
    if IsClone(req) {
      CloneMakes(conf, fleet, t, req, m);
      SnapshotKeepsHosts(conf, fleet, t, SourceOf(t, req), CloneSnapName(req.name), m);
    } else if IsRestore(req) {
      RestoreMakes(conf, fleet, t, req, m);
    } else {
      OtherMakes(conf, fleet, t, req, m);
    }
  }

  /* ---------------------------------------------------------------- other calls */

  /** Deleting a volume: without an id or on an appliance that is away it fails, as it does for an
      id that names no path; otherwise the volume is gone afterwards, whether or not it was there. */
  lemma DeleteOutcome(fleet: Fleet, t: Target, path: string, at: Resolved)
    ensures DeleteIdReply(fleet, "", at) == (Err(InvalidArgument), fleet)
    ensures var (r, after) := DeleteOn(fleet, t, path);
            if path == "" || t.addr !in fleet then r == Err(Internal) && after == fleet
            else r == Ok(()) && !Hosts(after, t.addr, path) && OnlyChanges(after, fleet, t.addr, path)
  {
  }

  /** Deleting a snapshot fails only on an appliance that is away; afterwards it is gone. */
  lemma DeleteSnapshotOutcome(fleet: Fleet, t: Target, path: string, name: string)
    requires '@' !in path && '@' !in name
    ensures var (r, after) := DeleteSnapshotOn(fleet, t, path, name);
            if t.addr !in fleet then r == Err(Internal) && after == fleet
            else r == Ok(()) && name !in SnapsIn(after, t.addr, path)
  {
    SnapPathParts(fleet, t.addr, path, name);
  }

  /** Looking a snapshot up on its resolved target: its id, volume id and time, or an internal
      error when it is not there. */
  lemma LookupOutcome(fleet: Fleet, t: Target, path: string, name: string)
    requires '@' !in path && '@' !in name
    ensures SingleReply(fleet, Found(t), path, name)
            == if Hosts(fleet, t.addr, path) && name in fleet[t.addr].datasets[path].snaps then
                 Ok([CsiSnapshot(t.configName + ":" + path + "@" + name, t.configName + ":" + path,
                                 fleet[t.addr].datasets[path].snaps[name].created)])
               else Err(Internal)
  {
    SnapPathParts(fleet, t.addr, path, name);
  }
}
