/** Creating, repeating, expanding and deleting volumes. */
module VolumeLaws {
  import opened Text
  import opened Status
  import opened Storage
  import opened Configuration
  import opened Resolution
  import opened Identifiers
  import opened Provision
  import opened Runs
  import opened RunLaws

  /* ---------------------------------------------------------------- what a reply promises */

  lemma ClonedIsThere(fleet: Fleet, addr: string, src: string, path: string, capacity: int)
    requires CloneSnapshot(fleet, addr, src, path, capacity).0 in {Done(()), Failed(Exists)}
    ensures Hosts(CloneSnapshot(fleet, addr, src, path, capacity).1, addr, path)
  {
  }

  /** Every successful way of making a volume leaves it there. */
  lemma MadeIsThere(conf: NodeMap, fleet: Fleet, t: Target, req: CreateRequest, m: Moment)
    requires MakeVolume(conf, fleet, t, req, m).0.Ok?
    ensures Hosts(MakeVolume(conf, fleet, t, req, m).1, t.addr, PathOf(t, req))
  {
    var path := PathOf(t, req);
    if req.source.Some? && !req.source.value.OtherSource? && req.source.value.id != ""
       && ParseVolumeID(req.source.value.id).Ok? {
      var info := ParseVolumeID(req.source.value.id).value;
      if req.source.value.FromSnapshot? {
        ClonedIsThere(fleet, t.addr, GetSnapshot(fleet, t.addr, info.Path).value.Path, path, req.capacity);
      } else {
        var source, name := SourceDataset(t.datasetPath, info.Path), CloneSnapName(req.name);
        var mid := SnapshotVolume(conf, fleet, t, source, name, m).1;
        ClonedIsThere(mid, t.addr, SnapPath(source, name), path, req.capacity);
      }
    } else {
      BlankAgain(fleet, t.addr, path, req.capacity);
    }
  }

  lemma SharedIsThere(fleet: Fleet, addr: string, path: string, list: string)
    requires Hosts(fleet, addr, path) && CreateNfsShare(fleet, addr, path, list).0.Done?
    ensures var after := CreateNfsShare(fleet, addr, path, list).1;
            Hosts(after, addr, path) && after[addr].datasets[path].share == Some(ShareText(list))
  {
  }

  lemma CreatedIsThere(conf: NodeMap, fleet: Fleet, t: Target, req: CreateRequest, zone: string, m: Moment)
    requires CreateOn(conf, fleet, t, req, zone, m).0.Ok?
    ensures var (r, after) := CreateOn(conf, fleet, t, req, zone, m); var path := PathOf(t, req);
            && t.configName in conf && Hosts(after, t.addr, path) && r.value == VolumeReply(conf, t, req, zone)
            && (req.nfsAccessList.Some? ==>
                  after[t.addr].datasets[path].share == Some(ShareText(req.nfsAccessList.value)))
  {
    MadeIsThere(conf, fleet, t, req, m);
    if req.nfsAccessList.Some? {
      SharedIsThere(MakeVolume(conf, fleet, t, req, m).1, t.addr, PathOf(t, req), req.nfsAccessList.value);
    }
  }

  /** A create request asks for its own dataset and zone; a blank one without dataset and
      entry asks for the first entry. */
  lemma AskedFor(conf: NodeMap, req: CreateRequest, zone: string)
    requires CreateParams(conf, req, zone).Ok?
    ensures var p := CreateParams(conf, req, zone).value;
            && p.zone == zone && p.datasetPath == req.dataset
            && (IsBlank(req) && (req.dataset != "" || req.configName != "") ==> p.configName == req.configName)
            && (IsBlank(req) && req.dataset == "" && req.configName == "" ==>
                  Sorted(conf.Keys) != [] && p.configName == Sorted(conf.Keys)[0] && p.configName in conf)
  {
    var nodes := Sorted(conf.Keys);
    assert nodes != [] ==> nodes[0] in nodes;
  }

  /** A request with a source goes to the entry named in the source's id, whichever entry it
      names itself; an id that cannot be parsed is not found, and other sources are refused. */
  lemma SourceDecides(conf: NodeMap, req: CreateRequest, zone: string, entry: string, path: string)
    requires req.source.Some?
    ensures var source := req.source.value;
            && (source.OtherSource? ==> CreateParams(conf, req, zone) == Err(InvalidArgument))
            && (!source.OtherSource? && source.id == entry + ":" + path ==>
                  CreateParams(conf, req, zone)
                  == if ':' in entry || ':' in path then Err(NotFound) else Ok(Params(req.dataset, zone, entry)))
  {
    ColonsInId(VolumeInfo(entry, path));
  }

  /** The volume a clone request names: as it is when it has a slash, else below the resolved
      dataset. */
  lemma SourceNamed(t: Target, req: CreateRequest, entry: string, path: string)
    requires req.source == Some(FromVolume(entry + ":" + path)) && ':' !in entry && ':' !in path
    ensures IsClone(req) && SourceOf(t, req) == if '/' in path then path else t.datasetPath + "/" + path
  {
    ColonsInId(VolumeInfo(entry, path));
  }

  /** An expansion replies with the size it was asked for and sets it as the quota, a size
      that is not positive meaning none; without the volume it fails and changes nothing. */
  lemma ExpandOutcome(fleet: Fleet, t: Target, path: string, capacity: int)
    ensures var (r, after) := ExpandOn(fleet, t, path, capacity);
            if path != "" && Hosts(fleet, t.addr, path) then
              && r == Ok(capacity) && OnlyChanges(after, fleet, t.addr, path) && Hosts(after, t.addr, path)
              && after[t.addr].datasets[path]
                 == fleet[t.addr].datasets[path].(quota := if capacity > 0 then capacity else 0)
            else r == Err(Unknown) && after == fleet
  {
  }

  /** What holds when a create request has succeeded: the volume is below the resolved
      dataset on the resolved node, shared if that was asked for; the id names the entry
      and the path; the zone in the reply is the one the entry is configured with; and a
      blank request without dataset and entry went to the default dataset of the first entry. */
  lemma CreatedVolume(conf: NodeMap, index: ResolverMap, fleet: Fleet, req: CreateRequest, zone: string,
                      p: Params, t: Target, m: Moment)
    requires CreateParams(conf, req, zone) == Ok(p) && Answerable(conf, index, p)
    requires Answers(conf, index, fleet, p, Found(t)) && CreateOn(conf, fleet, t, req, zone, m).0.Ok?
    ensures var (r, after) := CreateOn(conf, fleet, t, req, zone, m); var path := PathOf(t, req);
            && Sound(conf, index, fleet, p, t) && t.configName in conf
            && path == t.datasetPath + "/" + req.name && Hosts(after, t.addr, path)
            && r.value.id == t.configName + ":" + path
            && r.value.capacity == req.capacity && r.value.source == req.source
            && r.value.context == VolumeContext(req.dataIp, req.mountOptions, req.mountFsType,
                 match req.mountPointPermissions
                 case Some(given) => given
                 case None => conf[t.configName].MountPointPermissions)
            && (req.nfsAccessList.Some? ==>
                  after[t.addr].datasets[path].share
                  == Some(if req.nfsAccessList.value == "" then "anon=0,sec=sys"
                          else "anon=0,sec=sys" + "," + req.nfsAccessList.value))
            && (if zone == "" then r.value.topology == None
                else r.value.topology == Some(conf[t.configName].Zone) && conf[t.configName].Zone == zone)
            && (IsBlank(req) && req.dataset == "" && req.configName == "" && "" !in conf ==>
                  && Sorted(conf.Keys) != [] && t.configName == Sorted(conf.Keys)[0]
                  && t.datasetPath == conf[t.configName].DefaultDataset)
  {
    AskedFor(conf, req, zone);
    ResolutionSoundComplete(conf, index, fleet, p, Found(t));
    CreatedIsThere(conf, fleet, t, req, zone, m);
  }

  /* ---------------------------------------------------------------- repeating a request */

  lemma ShareAgain(fleet: Fleet, addr: string, path: string, list: string)
    ensures var (r, after) := CreateNfsShare(fleet, addr, path, list);
            r.Done? ==> CreateNfsShare(after, addr, path, list) == (r, after)
  {
    if path != "" && Hosts(fleet, addr, path) {
      var after := CreateNfsShare(fleet, addr, path, list).1;
      PutSame(after, addr, path);
    }
  }

  lemma PutSame(fleet: Fleet, addr: string, path: string)
    requires Hosts(fleet, addr, path)
    ensures Put(fleet, addr, path, fleet[addr].datasets[path]) == fleet
  {
    var node := fleet[addr];
    assert node.datasets[path := node.datasets[path]] == node.datasets;
  }

  /** The size a create request compares with: zero for paths the driver does not list. */
  function SeenSize(node: Node, path: string): int
    requires path in node.datasets
  {
    if Usable(path) then SizeOf(node, node.datasets[path]) else 0
  }

  /** A blank volume on an existing path: success exactly when no size is asked for or
      the seen size is enough; nothing changes either way. */
  lemma BlankOnExisting(fleet: Fleet, addr: string, path: string, capacity: int)
    requires Hosts(fleet, addr, path) && path != "" && '@' !in path
    ensures BlankVolume(fleet, addr, path, capacity)
            == (if capacity == 0 || capacity <= SeenSize(fleet[addr], path) then Ok(()) else Err(AlreadyExists), fleet)
  {
  }

  lemma BlankAgain(fleet: Fleet, addr: string, path: string, capacity: int)
    requires BlankVolume(fleet, addr, path, capacity).0.Ok?
    ensures var after := BlankVolume(fleet, addr, path, capacity).1;
            && Hosts(after, addr, path) && path != "" && '@' !in path
            && (capacity > 0 && !Usable(path) ==> SeenSize(after[addr], path) == 0)
            && (capacity > 0 && Usable(path) ==> capacity <= SeenSize(after[addr], path))
            && SeenSize(after[addr], path) >= 0
  {
  }

  /** Sharing does not change what a create request sees. */
  lemma ShareKeepsSize(fleet: Fleet, addr: string, path: string, list: string)
    requires Hosts(fleet, addr, path)
    ensures var after := CreateNfsShare(fleet, addr, path, list).1;
            Hosts(after, addr, path) && SeenSize(after[addr], path) == SeenSize(fleet[addr], path)
  {
  }

  /** Repeating a successful request for a blank volume gives the same reply and leaves
      datasets, quotas, shares and snapshots as they are, exactly when no positive size
      was asked for or the driver lists the path; on other paths the size is read as
      zero and the repeat is refused. */
  lemma CreateBlankAgain(conf: NodeMap, fleet: Fleet, t: Target, req: CreateRequest, zone: string, m: Moment,
                         later: Moment)
    requires IsBlank(req) && CreateOn(conf, fleet, t, req, zone, m).0.Ok?
    ensures var (r, after) := CreateOn(conf, fleet, t, req, zone, m);
            && (CreateOn(conf, after, t, req, zone, later) == (r, after)
                <==> req.capacity <= 0 || Usable(PathOf(t, req)))
            && CreateOn(conf, after, t, req, zone, later).1 == after
            && (req.capacity > 0 && !Usable(PathOf(t, req)) ==>
                  CreateOn(conf, after, t, req, zone, later).0 == Err(AlreadyExists))
  {
    var path := PathOf(t, req);
    BlankMakes(conf, fleet, t, req, m);
    BlankAgain(fleet, t.addr, path, req.capacity);
    var made := BlankVolume(fleet, t.addr, path, req.capacity).1;
    if req.nfsAccessList.Some? {
      ShareKeepsSize(made, t.addr, path, req.nfsAccessList.value);
      ShareAgain(made, t.addr, path, req.nfsAccessList.value);
    }
    var after := CreateOn(conf, fleet, t, req, zone, m).1;
    BlankMakes(conf, after, t, req, later);
    BlankOnExisting(after, t.addr, path, req.capacity);
  }

  /** After a successful snapshot it is there. */
  lemma SnapshotLeaves(conf: NodeMap, fleet: Fleet, t: Target, path: string, name: string, m: Moment)
    requires '@' !in path && '@' !in name && SnapshotVolume(conf, fleet, t, path, name, m).0.Ok?
    ensures var after := SnapshotVolume(conf, fleet, t, path, name, m).1;
            path != "" && Hosts(after, t.addr, path) && name in after[t.addr].datasets[path].snaps
  {
    SnapPathParts(fleet, t.addr, path, name);
  }

  lemma CloneFromLeaves(fleet: Fleet, addr: string, src: string, path: string, capacity: int, p: string)
    requires CloneFromSnap(fleet, addr, src, path, capacity).0.Ok? && Hosts(fleet, addr, p)
    ensures var after := CloneFromSnap(fleet, addr, src, path, capacity).1;
            && path != "" && '@' !in path && Hosts(after, addr, path)
            && Hosts(after, addr, p) && after[addr].datasets[p] == fleet[addr].datasets[p]
  {
  }

  /** After a successful clone both the snapshot and the volume are there. */
  lemma CloneLeaves(conf: NodeMap, fleet: Fleet, t: Target, source: string, path: string, name: string, capacity: int,
                    m: Moment)
    requires '@' !in source && '@' !in CloneSnapName(name)
    requires ClonedVolume(conf, fleet, t, source, path, name, capacity, m).0.Ok?
    ensures var after := ClonedVolume(conf, fleet, t, source, path, name, capacity, m).1;
            && source != "" && path != "" && '@' !in path && Hosts(after, t.addr, source) && Hosts(after, t.addr, path)
            && CloneSnapName(name) in after[t.addr].datasets[source].snaps
  {
    var snapName := CloneSnapName(name);
    SnapshotLeaves(conf, fleet, t, source, snapName, m);
    var mid := SnapshotVolume(conf, fleet, t, source, snapName, m).1;
    CloneFromLeaves(mid, t.addr, SnapPath(source, snapName), path, capacity, source);
  }

  /** With both there a clone request succeeds and changes nothing. */
  lemma CloneOnExisting(conf: NodeMap, fleet: Fleet, t: Target, source: string, path: string, name: string,
                        capacity: int, m: Moment)
    requires '@' !in source && '@' !in name && '@' !in path && source != "" && path != ""
    requires Hosts(fleet, t.addr, source) && Hosts(fleet, t.addr, path)
    requires CloneSnapName(name) in fleet[t.addr].datasets[source].snaps
    ensures ClonedVolume(conf, fleet, t, source, path, name, capacity, m) == (Ok(()), fleet)
  {
    SnapPathParts(fleet, t.addr, source, CloneSnapName(name));
  }

  lemma ShareKeepsSnaps(fleet: Fleet, addr: string, path: string, list: string, p: string)
    requires Hosts(fleet, addr, p)
    ensures var after := CreateNfsShare(fleet, addr, path, list).1;
            Hosts(after, addr, p) && after[addr].datasets[p].snaps == fleet[addr].datasets[p].snaps
  {
  }

  /** Repeating a successful clone request always gives the same reply and changes nothing. */
  lemma CreateCloneAgain(conf: NodeMap, fleet: Fleet, t: Target, req: CreateRequest, zone: string, m: Moment,
                         later: Moment)
    requires IsClone(req) && '@' !in SourceOf(t, req) && '@' !in req.name
    requires CreateOn(conf, fleet, t, req, zone, m).0.Ok?
    ensures var (r, after) := CreateOn(conf, fleet, t, req, zone, m);
            CreateOn(conf, after, t, req, zone, later) == (r, after)
  {
    var source, path := SourceOf(t, req), PathOf(t, req);
    CloneMakes(conf, fleet, t, req, m);
    CloneLeaves(conf, fleet, t, source, path, req.name, req.capacity, m);
    var made := MakeVolume(conf, fleet, t, req, m).1;
    if req.nfsAccessList.Some? {
      ShareKeepsSnaps(made, t.addr, path, req.nfsAccessList.value, source);
      ShareKeepsSnaps(made, t.addr, path, req.nfsAccessList.value, path);
      ShareAgain(made, t.addr, path, req.nfsAccessList.value);
    }
    var after := CreateOn(conf, fleet, t, req, zone, m).1;
    CloneMakes(conf, after, t, req, later);
    CloneOnExisting(conf, after, t, source, path, req.name, req.capacity, later);
  }

  /* ---------------------------------------------------------------- creating and expanding */

  /** The step does not delete this dataset. */
  predicate Leaves(addr: string, path: string, op: Op) {
    !(op.Delete? && op.t.addr == addr && op.path == path)
  }

  /** The step expands this dataset. */
  predicate Expands(addr: string, path: string, op: Op) {
    op.Expand? && op.t.addr == addr && op.path == path
  }

  /** The quota after a run, from the expansions of the dataset alone: the last one counts,
      and one that is not positive removes the quota. */
  function QuotaAfter(quota: int, addr: string, path: string, ops: seq<Op>): int
    decreases |ops|
  {
    if ops == [] then quota
    else QuotaAfter(if Expands(addr, path, ops[0]) then Quota(ops[0].capacity) else quota, addr, path, ops[1..])
  }

  lemma StepQuota(conf: NodeMap, fleet: Fleet, addr: string, path: string, op: Op)
    requires Hosts(fleet, addr, path) && path != "" && Leaves(addr, path, op)
    ensures var after := Step(conf, fleet, op);
            && Hosts(after, addr, path) && after[addr].space == fleet[addr].space
            && var was, now := fleet[addr].datasets[path], after[addr].datasets[path];
            && now.quota == (if Expands(addr, path, op) then Quota(op.capacity) else was.quota)
            && (now.content == was.content || (op.Write? && op.t.addr == addr && op.path == path))
  {
    match op
    case Create(t, req, zone, m) => CreateKeepsData(conf, fleet, t, req, zone, m);
    case CutClone(t, req, _, m) =>
      if IsClone(req) {
        SnapshotKeepsData(conf, fleet, t, SourceOf(t, req), CloneSnapName(req.name), m);
      }
    case TakeSnapshot(t, _, p, n, m) => SnapshotKeepsData(conf, fleet, t, p, n, m);
    case DropSnapshot(t, p, n) => DropKeepsData(fleet, t, p, n);
    case _ =>
  }

  /** Over any run of steps, none of which deletes the volume, it stays where it is, and its
      quota is the one last set by an expansion of it. */
  lemma {:induction false} RunQuota(conf: NodeMap, fleet: Fleet, addr: string, path: string, ops: seq<Op>)
    requires Hosts(fleet, addr, path) && path != ""
    requires forall i :: 0 <= i < |ops| ==> Leaves(addr, path, ops[i])
    ensures var after := Run(conf, fleet, ops);
            && Hosts(after, addr, path) && after[addr].space == fleet[addr].space
            && after[addr].datasets[path].quota == QuotaAfter(fleet[addr].datasets[path].quota, addr, path, ops)
    decreases |ops|
  {
    if ops != [] {
      StepQuota(conf, fleet, addr, path, ops[0]);
      RunQuota(conf, Step(conf, fleet, ops[0]), addr, path, ops[1..]);
    }
  }

  /** And its content is the one it had, unless a user writes to it. */
  lemma {:induction false} RunContent(conf: NodeMap, fleet: Fleet, addr: string, path: string, ops: seq<Op>)
    requires Hosts(fleet, addr, path) && path != ""
    requires forall i :: 0 <= i < |ops| ==>
               Leaves(addr, path, ops[i]) && !(ops[i].Write? && ops[i].t.addr == addr && ops[i].path == path)
    ensures var after := Run(conf, fleet, ops);
            Hosts(after, addr, path) && after[addr].datasets[path].content == fleet[addr].datasets[path].content
    decreases |ops|
  {
    if ops != [] {
      StepQuota(conf, fleet, addr, path, ops[0]);
      RunContent(conf, Step(conf, fleet, ops[0]), addr, path, ops[1..]);
    }
  }

  lemma BlankRefused(fleet: Fleet, addr: string, path: string, capacity: int)
    requires '@' in path
    ensures BlankVolume(fleet, addr, path, capacity).0 == Err(Internal)
  {
  }

  /** After such a run, while a quota is set, a create request on the path succeeds
      exactly when it asks for no size or for at most the current quota; for a path the
      driver does not list, exactly when it asks for no positive size. */
  lemma CreateAfterRun(conf: NodeMap, fleet: Fleet, ops: seq<Op>, t: Target, req: CreateRequest, zone: string,
                       m: Moment)
    requires IsBlank(req) && t.configName in conf && Hosts(fleet, t.addr, PathOf(t, req))
    requires forall i :: 0 <= i < |ops| ==> Leaves(t.addr, PathOf(t, req), ops[i])
    requires QuotaAfter(fleet[t.addr].datasets[PathOf(t, req)].quota, t.addr, PathOf(t, req), ops) > 0
    ensures var path := PathOf(t, req);
            var quota := QuotaAfter(fleet[t.addr].datasets[path].quota, t.addr, path, ops);
            CreateOn(conf, Run(conf, fleet, ops), t, req, zone, m).0.Ok?
            <==> '@' !in path && (req.capacity == 0 || req.capacity <= if Usable(path) then quota else 0)
  {
    var path := PathOf(t, req);
    var reached := Run(conf, fleet, ops);
    RunQuota(conf, fleet, t.addr, path, ops);
    BlankMakes(conf, reached, t, req, m);
    if '@' in path {
      BlankRefused(reached, t.addr, path, req.capacity);
    } else {
      BlankOnExisting(reached, t.addr, path, req.capacity);
    }
  }

  /* ---------------------------------------------------------------- creating and deleting */

  /** A pool lives on one node of a resolver. */
  ghost predicate PoolsApart(resolver: Resolver, fleet: Fleet) {
    forall a, b, p, q ::
      HasNode(resolver, a) && HasNode(resolver, b) && a != b && Hosts(fleet, a, p) && Hosts(fleet, b, q) ==>
        PoolOf(p) != PoolOf(q)
  }

  lemma AddsKeepsPools(resolver: Resolver, after: Fleet, before: Fleet, addr: string, top: string, name: string)
    requires PoolsApart(resolver, before) && Hosts(before, addr, top)
    requires AddsAtMost(after, before, addr, JoinPath(top, name))
    ensures PoolsApart(resolver, after)
  {
    PoolBelow(top, name);
    forall a, b, p, q | HasNode(resolver, a) && HasNode(resolver, b) && a != b
                        && Hosts(after, a, p) && Hosts(after, b, q)
      ensures PoolOf(p) != PoolOf(q)
    {
      var p' := if Hosts(before, a, p) then p else top;
      var q' := if Hosts(before, b, q) then q else top;
      assert Hosts(before, a, p') && Hosts(before, b, q');
    }
  }

  /** With pools apart, the new volume is found on the very node that has its parent. */
  lemma NewVolumeResolves(resolver: Resolver, after: Fleet, addr: string, top: string, name: string)
    requires PoolsApart(resolver, after) && Hosts(after, addr, JoinPath(top, name))
    requires HasNode(resolver, addr)
    ensures ResolveOn(resolver, after, JoinPath(top, name)) == Done(addr)
  {
    var path := JoinPath(top, name);
    HomedResolves(resolver, after, addr, path);
  }

  lemma PutThenRemove(fleet: Fleet, addr: string, path: string, ds: Dataset)
    requires addr in fleet && path !in fleet[addr].datasets
    ensures Remove(Put(fleet, addr, path, ds), addr, path) == fleet
  {
    var node := fleet[addr];
    assert node.datasets[path := ds] - {path} == node.datasets;
    assert Remove(Put(fleet, addr, path, ds), addr, path) == fleet[addr := node];
  }

  lemma PutOver(fleet: Fleet, addr: string, path: string, a: Dataset, b: Dataset)
    requires addr in fleet
    ensures Put(Put(fleet, addr, path, a), addr, path, b) == Put(fleet, addr, path, b)
  {
    var node := fleet[addr];
    assert node.datasets[path := a][path := b] == node.datasets[path := b];
  }

  /** Making a fresh volume and sharing it adds one dataset to the store it started from,
      for a clone the one that has the clone's snapshot. */
  lemma FreshVolume(conf: NodeMap, fleet: Fleet, t: Target, req: CreateRequest, zone: string, m: Moment)
    requires CreateOn(conf, fleet, t, req, zone, m).0.Ok? && !Hosts(fleet, t.addr, PathOf(t, req))
    ensures var base := Between(conf, fleet, t, req, m);
            && base.Keys == fleet.Keys && (forall a, p :: Hosts(base, a, p) <==> Hosts(fleet, a, p))
            && t.addr in base
            && exists ds: Dataset :: CreateOn(conf, fleet, t, req, zone, m).1 == Put(base, t.addr, PathOf(t, req), ds)
  {
    var path, base := PathOf(t, req), Between(conf, fleet, t, req, m);
    if IsClone(req) {
      SnapshotKeepsHosts(conf, fleet, t, SourceOf(t, req), CloneSnapName(req.name), m);
    }
    var ds := OneAdded(conf, fleet, t, req, m);
    if req.nfsAccessList.Some? {
      var shared := ds.(share := Some(ShareText(req.nfsAccessList.value)));
      PutOver(base, t.addr, path, ds, shared);
      assert CreateOn(conf, fleet, t, req, zone, m).1 == Put(base, t.addr, path, shared);
    } else {
      assert CreateOn(conf, fleet, t, req, zone, m).1 == Put(base, t.addr, path, ds);
    }
  }

  lemma OneAdded(conf: NodeMap, fleet: Fleet, t: Target, req: CreateRequest, m: Moment) returns (ds: Dataset)
    requires MakeVolume(conf, fleet, t, req, m).0.Ok? && !Hosts(Between(conf, fleet, t, req, m), t.addr, PathOf(t, req))
    ensures var base := Between(conf, fleet, t, req, m);
            t.addr in base && MakeVolume(conf, fleet, t, req, m).1 == Put(base, t.addr, PathOf(t, req), ds)
  {
    var made := MakeVolume(conf, fleet, t, req, m).1;
    if IsClone(req) {
      CloneMakes(conf, fleet, t, req, m);
    } else if IsRestore(req) {
      RestoreMakes(conf, fleet, t, req, m);
    } else {
      OtherMakes(conf, fleet, t, req, m);
    }
    ds := made[t.addr].datasets[PathOf(t, req)];
  }

  /** Deleting a fresh volume by the id its creation returned, in whatever order the map is
      tried: exactly when neither the entry's name nor the path has a colon (and every entry
      that an id without a name may lead to has it on this node), it resolves to the volume
      and restores the store it started from, for a clone up to the snapshot the source
      keeps. With a colon the delete reports success and changes nothing. */
  lemma CreateThenDelete(conf: NodeMap, index: ResolverMap, fleet: Fleet, p: Params, t: Target, req: CreateRequest,
                         zone: string, m: Moment)
    requires Sound(conf, index, fleet, p, t) && PoolsApart(index[t.configName], fleet)
    requires CreateOn(conf, fleet, t, req, zone, m).0.Ok? && !Hosts(fleet, t.addr, PathOf(t, req))
    ensures var (r, after) := CreateOn(conf, fleet, t, req, zone, m);
            var info := VolumeInfo(t.configName, PathOf(t, req));
            var base := Between(conf, fleet, t, req, m);
            var plain := ':' !in info.ConfigName && ':' !in info.Path;
            && after != base
            && (plain ==> ParseVolumeID(r.value.id) == Ok(info)
                          && Answers(conf, index, after, VolumeParams(info),
                             Found(Target(info.Path, t.addr, t.configName))))
            && ((forall at :: Answers(conf, index, after, VolumeParams(info), at) ==>
                   DeleteIdReply(after, r.value.id, at) == (Ok(()), base))
                <==> plain && (t.configName != "" || LeadsTo(conf, index, after, info, t.addr)))
            && (!plain ==> forall at :: DeleteIdReply(after, r.value.id, at) == (Ok(()), after))
  {
    var (r, after) := CreateOn(conf, fleet, t, req, zone, m);
    var info := VolumeInfo(t.configName, PathOf(t, req));
    var base := Between(conf, fleet, t, req, m);
    FreshVolume(conf, fleet, t, req, zone, m);
    var ds: Dataset :| after == Put(base, t.addr, info.Path, ds);
    FirstHostIsNode(index[t.configName], fleet, t.datasetPath, t.addr);
    CreateAddsOnly(conf, fleet, t, req, zone, m);
    AddsKeepsPools(index[t.configName], after, fleet, t.addr, t.datasetPath, req.name);
    NewVolumeResolves(index[t.configName], after, t.addr, t.datasetPath, req.name);
    assert r.value.id == VolumeId(info.ConfigName, info.Path);
    ColonsInId(info);
    if ':' !in info.ConfigName && ':' !in info.Path {
      ResolveOnMeaning(index[t.configName], after, info.Path);
      DeletesByNode(conf, index, after, base, info, t.addr, ds);
    } else {
      assert exists at :: Answers(conf, index, after, VolumeParams(info), at)
        by { SomeAnswer(conf, index, after, VolumeParams(info)); }
    }
  }

  /** Every request has an outcome. */
  lemma SomeAnswer(conf: NodeMap, index: ResolverMap, fleet: Fleet, p: Params)
    ensures exists at :: Answers(conf, index, fleet, p, at)
  {
    SortedIsOrder(index.Keys);
    OrderMembers(Sorted(index.Keys), index.Keys);
    AnswersAreOrders(conf, index, fleet, p, OutcomeIn(conf, index, fleet, p, Sorted(index.Keys)));
  }

  /** The id of a volume is refused as soon as one of its parts has a colon. */
  lemma ColonsInId(info: VolumeInfo)
    ensures var id := VolumeId(info.ConfigName, info.Path);
            id != "" && if ':' !in info.ConfigName && ':' !in info.Path then ParseVolumeID(id) == Ok(info)
                        else ParseVolumeID(id).Err?
  {
    VolumeIdRoundTrip(info.ConfigName, info.Path);
    var id := VolumeId(info.ConfigName, info.Path);
    assert id[|info.ConfigName|] == ':';
    SplitInTwo(id, ':');
    if |Split(id, ':')| == 2 {
      TwoPartsAreThese(info.ConfigName, info.Path);
    }
  }

  lemma TwoPartsAreThese(a: string, b: string)
    requires |Split(VolumeId(a, b), ':')| == 2
    ensures ':' !in a && ':' !in b
  {
    if ':' in a {
      var i := IndexOf(a, ':');
      var a1, rest := a[..i], a[i + 1..] + ":" + b;
      assert VolumeId(a, b) == a1 + [':'] + rest;
      SplitCons(a1, ':', rest);
      assert rest[|a| - i - 1] == ':';
      SplitInTwo(rest, ':');
    } else {
      SplitCons(a, ':', b);
      SplitInTwo(b, ':');
    }
  }

  /** What deleting by a good id does, by the node it is led to. */
  lemma DeletesByNode(conf: NodeMap, index: ResolverMap, after: Fleet, base: Fleet, info: VolumeInfo, addr: string,
                      ds: Dataset)
    requires ':' !in info.ConfigName && ':' !in info.Path && info.Path != ""
    requires addr in base && !Hosts(base, addr, info.Path) && after == Put(base, addr, info.Path, ds)
    requires Answers(conf, index, after, VolumeParams(info), Found(Target(info.Path, addr, info.ConfigName)))
    ensures (forall at :: Answers(conf, index, after, VolumeParams(info), at) ==>
               DeleteIdReply(after, VolumeId(info.ConfigName, info.Path), at) == (Ok(()), base))
            <==> info.ConfigName != "" || LeadsTo(conf, index, after, info, addr)
  {
    var p, id := VolumeParams(info), VolumeId(info.ConfigName, info.Path);
    ColonsInId(info);
    PutThenRemove(base, addr, info.Path, ds);
    if info.ConfigName == "" {
      FoundIsSound(conf, index, after, p, Target(info.Path, addr, info.ConfigName));
      SoundServes(conf, index, after, p, Target(info.Path, addr, info.ConfigName));
      if !LeadsTo(conf, index, after, info, addr) {
        var u :| Answers(conf, index, after, p, Found(u)) && u.addr != addr;
        DeleteElsewhere(after, base, u, addr, info.Path);
        assert DeleteIdReply(after, id, Found(u)) != (Ok(()), base);
      }
    }
  }

  lemma DeleteElsewhere(after: Fleet, base: Fleet, u: Target, addr: string, path: string)
    requires Hosts(after, addr, path) && !Hosts(base, addr, path) && u.addr != addr
    ensures DeleteOn(after, u, path).1 != base
  {
    assert Hosts(DeleteOn(after, u, path).1, addr, path);
  }

  /** Once its fresh volume is deleted, an id that names an entry finds nothing; deleting by
      it again succeeds and changes nothing. */
  lemma DeleteVolumeAgain(conf: NodeMap, index: ResolverMap, fleet: Fleet, p: Params, t: Target, req: CreateRequest,
                          zone: string, m: Moment)
    requires Sound(conf, index, fleet, p, t) && PoolsApart(index[t.configName], fleet)
    requires Reachable(index[t.configName], fleet) && t.configName != ""
    requires CreateOn(conf, fleet, t, req, zone, m).0.Ok? && !Hosts(fleet, t.addr, PathOf(t, req))
    ensures var info := VolumeInfo(t.configName, PathOf(t, req));
            var base := Between(conf, fleet, t, req, m);
            && NamedOutcome(conf, index, base, VolumeParams(info)) == Unresolved(ProviderError(NotExist))
            && forall at :: Answers(conf, index, base, VolumeParams(info), at) ==>
                 DeleteIdReply(base, VolumeId(info.ConfigName, info.Path), at) == (Ok(()), base)
  {
    var info := VolumeInfo(t.configName, PathOf(t, req));
    var base := Between(conf, fleet, t, req, m);
    FreshVolume(conf, fleet, t, req, zone, m);
    var after := CreateOn(conf, fleet, t, req, zone, m).1;
    FirstHostIsNode(index[t.configName], fleet, t.datasetPath, t.addr);
    CreateAddsOnly(conf, fleet, t, req, zone, m);
    AddsKeepsPools(index[t.configName], after, fleet, t.addr, t.datasetPath, req.name);
    CreatedIsThere(conf, fleet, t, req, zone, m);
    GoneFromAll(index[t.configName], after, base, t.addr, info.Path);
    ColonsInId(info);
  }

  /** With pools apart no node has the volume once its node has lost it. */
  lemma GoneFromAll(resolver: Resolver, after: Fleet, base: Fleet, addr: string, path: string)
    requires PoolsApart(resolver, after) && Hosts(after, addr, path) && path != "" && resolver.Nodes != []
    requires HasNode(resolver, addr)
    requires Reachable(resolver, base) && !Hosts(base, addr, path)
    requires forall a, p :: Hosts(base, a, p) ==> Hosts(after, a, p)
    ensures ResolveOn(resolver, base, path) == Failed(NotExist)
  {
    ResolveOnMeaning(resolver, base, path);
    forall k | 0 <= k < |resolver.Nodes| ensures !Hosts(base, resolver.Nodes[k].Address, path) {
      var a := resolver.Nodes[k].Address;
      assert HasNode(resolver, a);
      assert a != addr && Hosts(after, a, path) ==> PoolOf(path) != PoolOf(path);
    }
  }
}
