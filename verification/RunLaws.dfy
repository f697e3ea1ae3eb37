/** What provisioning steps leave alone: which datasets are there, where a pool lives,
    and which snapshots each dataset has. */
module RunLaws {
  import opened Storage
  import opened Configuration
  import opened Resolution
  import opened Identifiers
  import opened Provision
  import opened Runs

  /* ---------------------------------------------------------------- snapshots */

  /** The snapshots of a dataset; none where there is no dataset. */
  function SnapsIn(fleet: Fleet, addr: string, path: string): map<string, Snap> {
    if Hosts(fleet, addr, path) then fleet[addr].datasets[path].snaps else map[]
  }

  ghost predicate SnapsSame(after: Fleet, before: Fleet) {
    after.Keys == before.Keys && forall a, p :: SnapsIn(after, a, p) == SnapsIn(before, a, p)
  }

  /** Taking a snapshot adds at most one name to one dataset, and only when the scan did
      not find it elsewhere. */
  lemma SnapshotEffect(conf: NodeMap, fleet: Fleet, t: Target, path: string, name: string, m: Moment)
    ensures var after := SnapshotVolume(conf, fleet, t, path, name, m).1;
            || after == fleet
            || (&& Hosts(fleet, t.addr, path)
                && (t.configName in conf ==> !NameTaken(fleet[t.addr], conf[t.configName].DefaultDataset, path, name))
                && var ds := fleet[t.addr].datasets[path];
                && name !in ds.snaps
                && after == Put(fleet, t.addr, path, ds.(snaps := ds.snaps[name := Snap(ds.content, m.user, m.now)])))
  {
  }

  lemma CloneSnapsSame(fleet: Fleet, addr: string, src: string, target: string, quota: int)
    ensures SnapsSame(CloneSnapshot(fleet, addr, src, target, quota).1, fleet)
    ensures SnapsSame(CloneFromSnap(fleet, addr, src, target, quota).1, fleet)
  {
  }

  lemma RestoreSnapsSame(fleet: Fleet, addr: string, snapName: string, target: string, quota: int)
    ensures SnapsSame(VolumeFromSnapshot(fleet, addr, snapName, target, quota).1, fleet)
  {
    match GetSnapshot(fleet, addr, snapName) {
      case Failed(_) =>
      case Done(s) => CloneSnapsSame(fleet, addr, s.Path, target, quota);
    }
  }

  lemma BlankSnapsSame(fleet: Fleet, addr: string, path: string, capacity: int)
    ensures SnapsSame(BlankVolume(fleet, addr, path, capacity).1, fleet)
  {
  }

  lemma ShareSnapsSame(fleet: Fleet, addr: string, path: string, nfsArgs: string)
    ensures SnapsSame(CreateNfsShare(fleet, addr, path, nfsArgs).1, fleet)
  {
  }

  /** The store between the two halves of making a volume: only a clone takes a snapshot first. */
  function Between(conf: NodeMap, fleet: Fleet, t: Target, req: CreateRequest, m: Moment): Fleet {
    if IsClone(req) then SnapshotVolume(conf, fleet, t, SourceOf(t, req), CloneSnapName(req.name), m).1 else fleet
  }

  lemma BlankMakes(conf: NodeMap, fleet: Fleet, t: Target, req: CreateRequest, m: Moment)
    requires IsBlank(req)
    ensures MakeVolume(conf, fleet, t, req, m) == BlankVolume(fleet, t.addr, PathOf(t, req), req.capacity)
  {
  }

  lemma CloneMakes(conf: NodeMap, fleet: Fleet, t: Target, req: CreateRequest, m: Moment)
    requires IsClone(req)
    ensures MakeVolume(conf, fleet, t, req, m)
            == ClonedVolume(conf, fleet, t, SourceOf(t, req), PathOf(t, req), req.name, req.capacity, m)
  {
  }

  predicate IsRestore(req: CreateRequest) {
    req.source.Some? && req.source.value.FromSnapshot? && req.source.value.id != ""
    && ParseVolumeID(req.source.value.id).Ok?
  }

  lemma RestoreMakes(conf: NodeMap, fleet: Fleet, t: Target, req: CreateRequest, m: Moment)
    requires IsRestore(req)
    ensures MakeVolume(conf, fleet, t, req, m)
            == VolumeFromSnapshot(fleet, t.addr, ParseVolumeID(req.source.value.id).value.Path, PathOf(t, req),
                req.capacity)
  {
  }

  lemma OtherMakes(conf: NodeMap, fleet: Fleet, t: Target, req: CreateRequest, m: Moment)
    requires !IsClone(req) && !IsRestore(req)
    ensures MakeVolume(conf, fleet, t, req, m) == BlankVolume(fleet, t.addr, PathOf(t, req), req.capacity)
  {
  }

  lemma MakeSnaps(conf: NodeMap, fleet: Fleet, t: Target, req: CreateRequest, m: Moment)
    ensures SnapsSame(MakeVolume(conf, fleet, t, req, m).1, Between(conf, fleet, t, req, m))
  {
    if IsClone(req) {
      CloneMakes(conf, fleet, t, req, m);
      CloneSnapsSame(Between(conf, fleet, t, req, m), t.addr, SnapPath(SourceOf(t, req), CloneSnapName(req.name)),
                     PathOf(t, req), req.capacity);
    } else if IsRestore(req) {
      RestoreMakes(conf, fleet, t, req, m);
      RestoreSnapsSame(fleet, t.addr, ParseVolumeID(req.source.value.id).value.Path, PathOf(t, req), req.capacity);
    } else {
      OtherMakes(conf, fleet, t, req, m);
      BlankSnapsSame(fleet, t.addr, PathOf(t, req), req.capacity);
    }
  }

  /** After the snapshot a clone takes, creating a volume changes no snapshots. */
  lemma CreateSnaps(conf: NodeMap, fleet: Fleet, t: Target, req: CreateRequest, zone: string, m: Moment)
    ensures SnapsSame(CreateOn(conf, fleet, t, req, zone, m).1, Between(conf, fleet, t, req, m))
  {
    MakeSnaps(conf, fleet, t, req, m);
    if req.nfsAccessList.Some? {
      ShareSnapsSame(MakeVolume(conf, fleet, t, req, m).1, t.addr, PathOf(t, req), req.nfsAccessList.value);
    }
  }

  /* ---------------------------------------------------------------- datasets */

  /** At most one dataset is new, and none is gone. */
  ghost predicate AddsAtMost(after: Fleet, before: Fleet, addr: string, path: string) {
    && after.Keys == before.Keys
    && (forall a, p :: Hosts(before, a, p) ==> Hosts(after, a, p))
    && (forall a, p :: Hosts(after, a, p) ==> Hosts(before, a, p) || (a == addr && p == path))
  }

  lemma SnapshotKeepsHosts(conf: NodeMap, fleet: Fleet, t: Target, path: string, name: string, m: Moment)
    ensures var after := SnapshotVolume(conf, fleet, t, path, name, m).1;
            after.Keys == fleet.Keys && forall a, p :: Hosts(after, a, p) <==> Hosts(fleet, a, p)
  {
  }

  lemma CloneAdds(fleet: Fleet, addr: string, src: string, path: string, quota: int)
    ensures AddsAtMost(CloneFromSnap(fleet, addr, src, path, quota).1, fleet, addr, path)
    ensures AddsAtMost(CloneSnapshot(fleet, addr, src, path, quota).1, fleet, addr, path)
  {
  }

  lemma RestoreAdds(fleet: Fleet, addr: string, snapName: string, path: string, quota: int)
    ensures AddsAtMost(VolumeFromSnapshot(fleet, addr, snapName, path, quota).1, fleet, addr, path)
  {
    match GetSnapshot(fleet, addr, snapName) {
      case Failed(_) =>
      case Done(s) => CloneAdds(fleet, addr, s.Path, path, quota);
    }
  }

  lemma BlankAdds(fleet: Fleet, addr: string, path: string, capacity: int)
    ensures AddsAtMost(BlankVolume(fleet, addr, path, capacity).1, fleet, addr, path)
  {
  }

  lemma ShareAdds(fleet: Fleet, addr: string, path: string, list: string, other: string)
    ensures AddsAtMost(CreateNfsShare(fleet, addr, path, list).1, fleet, addr, other)
  {
  }

  lemma MakeAdds(conf: NodeMap, fleet: Fleet, t: Target, req: CreateRequest, m: Moment)
    ensures AddsAtMost(MakeVolume(conf, fleet, t, req, m).1, fleet, t.addr, PathOf(t, req))
  {
    if IsClone(req) {
      CloneMakes(conf, fleet, t, req, m);
      SnapshotKeepsHosts(conf, fleet, t, SourceOf(t, req), CloneSnapName(req.name), m);
      CloneAdds(Between(conf, fleet, t, req, m), t.addr, SnapPath(SourceOf(t, req), CloneSnapName(req.name)),
                PathOf(t, req), req.capacity);
    } else if IsRestore(req) {
      RestoreMakes(conf, fleet, t, req, m);
      RestoreAdds(fleet, t.addr, ParseVolumeID(req.source.value.id).value.Path, PathOf(t, req), req.capacity);
    } else {
      OtherMakes(conf, fleet, t, req, m);
      BlankAdds(fleet, t.addr, PathOf(t, req), req.capacity);
    }
  }

  /** Creating touches no dataset's existence but the volume's own, whatever the source. */
  lemma CreateAddsOnly(conf: NodeMap, fleet: Fleet, t: Target, req: CreateRequest, zone: string, m: Moment)
    ensures AddsAtMost(CreateOn(conf, fleet, t, req, zone, m).1, fleet, t.addr, PathOf(t, req))
  {
    MakeAdds(conf, fleet, t, req, m);
    if req.nfsAccessList.Some? {
      ShareAdds(MakeVolume(conf, fleet, t, req, m).1, t.addr, PathOf(t, req), req.nfsAccessList.value, PathOf(t, req));
    }
  }

  /** No step but a create brings a dataset, and that one only its volume. */
  lemma StepHosts(conf: NodeMap, fleet: Fleet, op: Op)
    ensures var after := Step(conf, fleet, op);
            && after.Keys == fleet.Keys
            && forall a, p :: Hosts(after, a, p) ==>
                 Hosts(fleet, a, p) || (op.Create? && a == op.t.addr && p == PathOf(op.t, op.req))
  {
    match op
    case Create(t, req, zone, m) => CreateAddsOnly(conf, fleet, t, req, zone, m);
    case CutClone(t, req, _, m) =>
      if IsClone(req) {
        SnapshotKeepsHosts(conf, fleet, t, SourceOf(t, req), CloneSnapName(req.name), m);
      }
    case TakeSnapshot(t, _, path, name, m) => SnapshotKeepsHosts(conf, fleet, t, path, name, m);
    case _ =>
  }

  lemma {:induction false} RunKeepsNodes(conf: NodeMap, fleet: Fleet, ops: seq<Op>)
    ensures Run(conf, fleet, ops).Keys == fleet.Keys
    decreases |ops|
  {
    if ops != [] {
      StepHosts(conf, fleet, ops[0]);
      RunKeepsNodes(conf, Step(conf, fleet, ops[0]), ops[1..]);
    }
  }

  /* ---------------------------------------------------------------- contents and quotas */

  /** Datasets stay, each with its content and quota, and nodes keep their space. */
  ghost predicate DataStays(after: Fleet, before: Fleet) {
    && after.Keys == before.Keys && (forall a :: a in before ==> after[a].space == before[a].space)
    && forall a, p :: Hosts(before, a, p) ==>
         && Hosts(after, a, p) && after[a].datasets[p].quota == before[a].datasets[p].quota
         && after[a].datasets[p].content == before[a].datasets[p].content
  }

  lemma SnapshotKeepsData(conf: NodeMap, fleet: Fleet, t: Target, path: string, name: string, m: Moment)
    ensures DataStays(SnapshotVolume(conf, fleet, t, path, name, m).1, fleet)
  {
    SnapshotEffect(conf, fleet, t, path, name, m);
  }

  lemma DropKeepsData(fleet: Fleet, t: Target, path: string, name: string)
    ensures DataStays(DeleteSnapshotOn(fleet, t, path, name).1, fleet)
  {
  }

  lemma CloneKeepsData(fleet: Fleet, addr: string, src: string, path: string, quota: int)
    ensures DataStays(CloneSnapshot(fleet, addr, src, path, quota).1, fleet)
    ensures DataStays(CloneFromSnap(fleet, addr, src, path, quota).1, fleet)
  {
  }

  lemma RestoreKeepsData(fleet: Fleet, addr: string, snapName: string, path: string, quota: int)
    ensures DataStays(VolumeFromSnapshot(fleet, addr, snapName, path, quota).1, fleet)
  {
    match GetSnapshot(fleet, addr, snapName) {
      case Failed(_) =>
      case Done(s) => CloneKeepsData(fleet, addr, s.Path, path, quota);
    }
  }

  lemma BlankKeepsData(fleet: Fleet, addr: string, path: string, capacity: int)
    ensures DataStays(BlankVolume(fleet, addr, path, capacity).1, fleet)
  {
  }

  lemma ShareKeepsData(fleet: Fleet, addr: string, path: string, list: string)
    ensures DataStays(CreateNfsShare(fleet, addr, path, list).1, fleet)
  {
  }

  lemma DataStaysOn(after: Fleet, mid: Fleet, before: Fleet)
    requires DataStays(after, mid) && DataStays(mid, before)
    ensures DataStays(after, before)
  {
    forall a, p | Hosts(before, a, p)
      ensures Hosts(after, a, p) && after[a].datasets[p].quota == before[a].datasets[p].quota
              && after[a].datasets[p].content == before[a].datasets[p].content
    {
      assert Hosts(mid, a, p);
    }
  }

  lemma MakeKeepsData(conf: NodeMap, fleet: Fleet, t: Target, req: CreateRequest, m: Moment)
    ensures DataStays(MakeVolume(conf, fleet, t, req, m).1, fleet)
  {
    if IsClone(req) {
      CloneMakes(conf, fleet, t, req, m);
      SnapshotKeepsData(conf, fleet, t, SourceOf(t, req), CloneSnapName(req.name), m);
      CloneKeepsData(Between(conf, fleet, t, req, m), t.addr, SnapPath(SourceOf(t, req), CloneSnapName(req.name)),
                     PathOf(t, req), req.capacity);
      DataStaysOn(MakeVolume(conf, fleet, t, req, m).1, Between(conf, fleet, t, req, m), fleet);
    } else if IsRestore(req) {
      RestoreMakes(conf, fleet, t, req, m);
      RestoreKeepsData(fleet, t.addr, ParseVolumeID(req.source.value.id).value.Path, PathOf(t, req), req.capacity);
    } else {
      OtherMakes(conf, fleet, t, req, m);
      BlankKeepsData(fleet, t.addr, PathOf(t, req), req.capacity);
    }
  }

  /** Creating a volume changes no content and no quota of any dataset that is there. */
  lemma CreateKeepsData(conf: NodeMap, fleet: Fleet, t: Target, req: CreateRequest, zone: string, m: Moment)
    ensures DataStays(CreateOn(conf, fleet, t, req, zone, m).1, fleet)
  {
    MakeKeepsData(conf, fleet, t, req, m);
    if req.nfsAccessList.Some? {
      var made := MakeVolume(conf, fleet, t, req, m).1;
      ShareKeepsData(made, t.addr, PathOf(t, req), req.nfsAccessList.value);
      DataStaysOn(CreateNfsShare(made, t.addr, PathOf(t, req), req.nfsAccessList.value).1, made, fleet);
    }
  }

  /* ---------------------------------------------------------------- where a pool lives */

  /** Of the nodes of a resolver only this one has datasets of the pool. */
  ghost predicate Homed(resolver: Resolver, fleet: Fleet, pool: string, addr: string) {
    forall a, p :: HasNode(resolver, a) && Hosts(fleet, a, p) && PoolOf(p) == pool ==> a == addr
  }

  lemma StepKeepsHome(conf: NodeMap, fleet: Fleet, op: Op, resolver: Resolver, pool: string, addr: string)
    requires Homed(resolver, fleet, pool, addr)
    requires op.Create? ==> Hosts(fleet, op.t.addr, op.t.datasetPath)
    ensures Homed(resolver, Step(conf, fleet, op), pool, addr)
  {
    StepHosts(conf, fleet, op);
    if op.Create? {
      PoolBelow(op.t.datasetPath, op.req.name);
    }
  }

  /** A run of requests moves no pool to another node. */
  lemma {:induction false} CallsKeepHome(conf: NodeMap, index: ResolverMap, fleet: Fleet, calls: seq<Call>,
                                         resolver: Resolver, pool: string, addr: string)
    requires Called(conf, index, fleet, calls) && Homed(resolver, fleet, pool, addr)
    ensures Homed(resolver, After(conf, fleet, calls), pool, addr)
    ensures After(conf, fleet, calls).Keys == fleet.Keys
    decreases |calls|
  {
    if calls != [] {
      var op := calls[0].op;
      if op.Create? {
        FoundIsHosted(conf, index, fleet, calls[0].p, op.t);
      }
      StepHosts(conf, fleet, op);
      StepKeepsHome(conf, fleet, op, resolver, pool, addr);
      CallsKeepHome(conf, index, Step(conf, fleet, op), calls[1..], resolver, pool, addr);
    }
  }

  lemma FirstHostIsNode(resolver: Resolver, fleet: Fleet, path: string, addr: string)
    requires FirstHost(resolver, fleet, path, addr)
    ensures HasNode(resolver, addr) && Hosts(fleet, addr, path)
  {
    var i :| 0 <= i < |resolver.Nodes| && resolver.Nodes[i].Address == addr && Hosts(fleet, addr, path);
  }

  /** A dataset of a pool that lives on one node is found there or nowhere. */
  lemma HomedResolves(resolver: Resolver, fleet: Fleet, addr: string, path: string)
    requires Homed(resolver, fleet, PoolOf(path), addr) && path != ""
    ensures ResolveOn(resolver, fleet, path).Done? ==> ResolveOn(resolver, fleet, path) == Done(addr)
    ensures Hosts(fleet, addr, path) && HasNode(resolver, addr) ==> ResolveOn(resolver, fleet, path) == Done(addr)
  {
    ResolveOnMeaning(resolver, fleet, path);
    if ResolveOn(resolver, fleet, path).Done? {
      FirstHostIsNode(resolver, fleet, path, ResolveOn(resolver, fleet, path).value);
    }
    if Hosts(fleet, addr, path) && HasNode(resolver, addr) {
      var i :| 0 <= i < |resolver.Nodes| && resolver.Nodes[i].Address == addr;
      assert SomeHosts(resolver, fleet, path);
    }
  }

  lemma {:induction false} SameHostsSameScan(nodes: seq<Provider>, before: Fleet, after: Fleet, path: string,
                                             err: BsrError)
    requires before.Keys == after.Keys && forall a :: Hosts(after, a, path) <==> Hosts(before, a, path)
    ensures Scan(nodes, before, path, err) == Scan(nodes, after, path, err)
    decreases |nodes|
  {
    if nodes != [] {
      assert Hosts(after, nodes[0].Address, path) <==> Hosts(before, nodes[0].Address, path);
      if path != "" && !Hosts(before, nodes[0].Address, path) && nodes[0].Address in before {
        SameHostsSameScan(nodes[1..], before, after, path, NotExist);
      } else {
        SameHostsSameScan(nodes[1..], before, after, path, Other);
      }
    }
  }

  /* ---------------------------------------------------------------- dataset names */

  /** A path that an appliance can have: it starts with the name of a pool. */
  predicate Rooted(path: string) { path != "" && path[0] != '/' }

  ghost predicate WellNamed(fleet: Fleet) {
    forall a, p :: Hosts(fleet, a, p) ==> Rooted(p)
  }

  lemma StepKeepsNames(conf: NodeMap, fleet: Fleet, op: Op)
    requires WellNamed(fleet) && (op.Create? ==> Rooted(op.t.datasetPath))
    ensures WellNamed(Step(conf, fleet, op))
  {
    StepHosts(conf, fleet, op);
    if op.Create? {
      assert PathOf(op.t, op.req)[0] == op.t.datasetPath[0];
    }
  }
}
