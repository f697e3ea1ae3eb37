/** Creating and deleting snapshots: repeats, one undoing the other, and what other calls
    in between may do. */
module SnapshotLaws {
  import opened Text
  import opened Status
  import opened Storage
  import opened Configuration
  import opened Resolution
  import opened Identifiers
  import opened Provision
  import opened Runs
  import opened RunLaws

  /* ---------------------------------------------------------------- a snapshot over runs */

  /** The snapshot is there, with this content, creator and creation time. */
  predicate Held(fleet: Fleet, addr: string, path: string, name: string, snap: Snap) {
    name in SnapsIn(fleet, addr, path) && SnapsIn(fleet, addr, path)[name] == snap
  }

  predicate Gone(fleet: Fleet, addr: string, path: string, name: string) {
    name !in SnapsIn(fleet, addr, path)
  }

  /** The step neither drops the snapshot nor deletes its dataset. */
  predicate Spares(addr: string, path: string, name: string, op: Op) {
    op.t.addr != addr ||
    match op
    case DropSnapshot(_, p, n) => p != path || n != name
    case Delete(_, p) => p != path
    case _ => true
  }

  /** The step does not take the snapshot, neither by request nor for a clone. */
  predicate Avoids(addr: string, path: string, name: string, op: Op) {
    op.t.addr != addr ||
    match op
    case Create(t, req, _, _) => IsClone(req) && SourceOf(t, req) == path ==> CloneSnapName(req.name) != name
    case CutClone(t, req, _, _) => IsClone(req) && SourceOf(t, req) == path ==> CloneSnapName(req.name) != name
    case TakeSnapshot(_, _, p, n, _) => p != path || n != name
    case _ => true
  }

  lemma TakeKeepsHeld(conf: NodeMap, fleet: Fleet, t: Target, p: string, n: string, m: Moment,
                      addr: string, path: string, name: string, snap: Snap)
    requires Held(fleet, addr, path, name, snap)
    ensures Held(SnapshotVolume(conf, fleet, t, p, n, m).1, addr, path, name, snap)
  {
    SnapshotEffect(conf, fleet, t, p, n, m);
  }

  lemma TakeKeepsGone(conf: NodeMap, fleet: Fleet, t: Target, p: string, n: string, m: Moment,
                      addr: string, path: string, name: string)
    requires Gone(fleet, addr, path, name) && !(t.addr == addr && p == path && n == name)
    ensures Gone(SnapshotVolume(conf, fleet, t, p, n, m).1, addr, path, name)
  {
    SnapshotEffect(conf, fleet, t, p, n, m);
  }

  /** Dropping a snapshot takes away that one and leaves every other one. */
  lemma DropEffect(fleet: Fleet, t: Target, p: string, n: string, addr: string, path: string)
    ensures var after := DeleteSnapshotOn(fleet, t, p, n).1;
            && (t.addr != addr || p != path ==> SnapsIn(after, addr, path) == SnapsIn(fleet, addr, path))
            && (t.addr == addr && p == path ==>
                  SnapsIn(after, addr, path) in {SnapsIn(fleet, addr, path), SnapsIn(fleet, addr, path) - {n}})
  {
    SnapPathParts(fleet, t.addr, p, n);
  }

  lemma SameSnaps(after: Fleet, before: Fleet, addr: string, path: string)
    requires SnapsSame(after, before)
    ensures SnapsIn(after, addr, path) == SnapsIn(before, addr, path)
  {
  }

  lemma StepKeepsHeld(conf: NodeMap, fleet: Fleet, op: Op, addr: string, path: string, name: string, snap: Snap)
    requires Held(fleet, addr, path, name, snap) && Spares(addr, path, name, op)
    ensures Held(Step(conf, fleet, op), addr, path, name, snap)
  {
    match op
    case Create(t, req, zone, m) =>
      if IsClone(req) {
        TakeKeepsHeld(conf, fleet, t, SourceOf(t, req), CloneSnapName(req.name), m, addr, path, name, snap);
      }
      CreateSnaps(conf, fleet, t, req, zone, m);
      SameSnaps(Step(conf, fleet, op), Between(conf, fleet, t, req, m), addr, path);
    case CutClone(t, req, _, m) =>
      if IsClone(req) {
        TakeKeepsHeld(conf, fleet, t, SourceOf(t, req), CloneSnapName(req.name), m, addr, path, name, snap);
      }
    case TakeSnapshot(t, _, p, n, m) => TakeKeepsHeld(conf, fleet, t, p, n, m, addr, path, name, snap);
    case DropSnapshot(t, p, n) => DropEffect(fleet, t, p, n, addr, path);
    case _ =>
  }

  lemma StepKeepsGone(conf: NodeMap, fleet: Fleet, op: Op, addr: string, path: string, name: string)
    requires Gone(fleet, addr, path, name) && Avoids(addr, path, name, op)
    ensures Gone(Step(conf, fleet, op), addr, path, name)
  {
    match op
    case Create(t, req, zone, m) =>
      if IsClone(req) {
        TakeKeepsGone(conf, fleet, t, SourceOf(t, req), CloneSnapName(req.name), m, addr, path, name);
      }
      CreateSnaps(conf, fleet, t, req, zone, m);
      SameSnaps(Step(conf, fleet, op), Between(conf, fleet, t, req, m), addr, path);
    case CutClone(t, req, _, m) =>
      if IsClone(req) {
        TakeKeepsGone(conf, fleet, t, SourceOf(t, req), CloneSnapName(req.name), m, addr, path, name);
      }
    case TakeSnapshot(t, _, p, n, m) => TakeKeepsGone(conf, fleet, t, p, n, m, addr, path, name);
    case DropSnapshot(t, p, n) => DropEffect(fleet, t, p, n, addr, path);
    case _ =>
  }

  /** A snapshot survives every run that spares it, creation time included. */
  lemma {:induction false} RunKeepsHeld(conf: NodeMap, fleet: Fleet, ops: seq<Op>, addr: string, path: string,
                                        name: string, snap: Snap)
    requires Held(fleet, addr, path, name, snap) && forall i :: 0 <= i < |ops| ==> Spares(addr, path, name, ops[i])
    ensures Held(Run(conf, fleet, ops), addr, path, name, snap)
    decreases |ops|
  {
    if ops != [] {
      StepKeepsHeld(conf, fleet, ops[0], addr, path, name, snap);
      RunKeepsHeld(conf, Step(conf, fleet, ops[0]), ops[1..], addr, path, name, snap);
    }
  }

  /** And one that is gone stays gone in every run that does not take it again. */
  lemma {:induction false} RunKeepsGone(conf: NodeMap, fleet: Fleet, ops: seq<Op>, addr: string, path: string,
                                        name: string)
    requires Gone(fleet, addr, path, name) && forall i :: 0 <= i < |ops| ==> Avoids(addr, path, name, ops[i])
    ensures Gone(Run(conf, fleet, ops), addr, path, name)
    decreases |ops|
  {
    if ops != [] {
      StepKeepsGone(conf, fleet, ops[0], addr, path, name);
      RunKeepsGone(conf, Step(conf, fleet, ops[0]), ops[1..], addr, path, name);
    }
  }

  /** A run of requests is a run of their steps. */
  function Steps(calls: seq<Call>): seq<Op> { seq(|calls|, i requires 0 <= i < |calls| => calls[i].op) }

  lemma {:induction false} AfterIsRun(conf: NodeMap, fleet: Fleet, calls: seq<Call>)
    ensures After(conf, fleet, calls) == Run(conf, fleet, Steps(calls))
    decreases |calls|
  {
    if calls != [] {
      AfterIsRun(conf, Step(conf, fleet, calls[0].op), calls[1..]);
      assert Steps(calls)[1..] == Steps(calls[1..]);
    }
  }

  /* ---------------------------------------------------------------- one request */

  /** Exactly when a snapshot request succeeds, and what it then replies. */
  lemma CreateSnapshotOutcome(conf: NodeMap, fleet: Fleet, t: Target, sourceId: string, path: string, name: string,
                              m: Moment)
    requires path != "" && '@' !in path && t.configName in conf
    ensures var (r, after) := SnapshotOn(conf, fleet, t, sourceId, path, name, m);
            && (r.Ok? <==> && Hosts(fleet, t.addr, path) && '@' !in name
                           && (|| name in fleet[t.addr].datasets[path].snaps
                               || (name != ""
                                   && !NameTaken(fleet[t.addr], conf[t.configName].DefaultDataset, path, name))))
            && (r.Ok? ==> && Hosts(after, t.addr, path) && name in after[t.addr].datasets[path].snaps
                          && r.value.id == t.configName + ":" + path + "@" + name
                          && r.value.sourceVolumeId == sourceId
                          && r.value.creationTime == after[t.addr].datasets[path].snaps[name].created)
            && (r.Ok? && name !in SnapsIn(fleet, t.addr, path) ==>
                  after[t.addr].datasets[path].snaps[name] == Snap(fleet[t.addr].datasets[path].content, m.user, m.now))
  {
    SnapPathParts(fleet, t.addr, path, name);
    if '@' in name {
      NoSuchSnapshot(fleet, t.addr, path, name);
    }
  }

  lemma NoSuchSnapshot(fleet: Fleet, addr: string, path: string, name: string)
    requires '@' !in path && '@' in name
    ensures SnapshotAt(fleet, addr, SnapPath(path, name)).None?
  {
    SplitCons(path, '@', name);
    SplitInTwo(name, '@');
  }

  /** The refusals of a snapshot request: without the volume it is not found; when another
      listed dataset below the entry's default one has a snapshot of the name it exists
      already; nothing changes. */
  lemma SnapshotRefusals(conf: NodeMap, fleet: Fleet, t: Target, sourceId: string, path: string, name: string,
                         m: Moment, other: string)
    requires '@' !in path && '@' !in name
    ensures path == "" || !Hosts(fleet, t.addr, path) ==>
              SnapshotOn(conf, fleet, t, sourceId, path, name, m) == (Err(NotFound), fleet)
    ensures && path != "" && Hosts(fleet, t.addr, path) && name !in fleet[t.addr].datasets[path].snaps
            && t.configName in conf && other != path && Hosts(fleet, t.addr, other) && Usable(other)
            && conf[t.configName].DefaultDataset + "/" <= other && name in fleet[t.addr].datasets[other].snaps ==>
              SnapshotOn(conf, fleet, t, sourceId, path, name, m) == (Err(AlreadyExists), fleet)
  {
    SnapPathParts(fleet, t.addr, path, name);
  }

  /** After a successful request the snapshot is there, and the reply has its creation time. */
  lemma TakenIsHeld(conf: NodeMap, fleet: Fleet, t: Target, sourceId: string, path: string, name: string, m: Moment)
    returns (snap: Snap)
    requires '@' !in path && '@' !in name && SnapshotOn(conf, fleet, t, sourceId, path, name, m).0.Ok?
    ensures var (r, after) := SnapshotOn(conf, fleet, t, sourceId, path, name, m);
            && path != "" && after.Keys == fleet.Keys && Held(after, t.addr, path, name, snap)
            && r.value == CsiSnapshot(SnapshotId(t.configName, path, name), sourceId, snap.created)
  {
    SnapPathParts(fleet, t.addr, path, name);
    snap := SnapsIn(SnapshotOn(conf, fleet, t, sourceId, path, name, m).1, t.addr, path)[name];
  }

  /** A request for a snapshot that is there returns it and changes nothing. */
  lemma TakeHeld(conf: NodeMap, fleet: Fleet, t: Target, sourceId: string, path: string, name: string, m: Moment,
                 snap: Snap)
    requires path != "" && '@' !in path && '@' !in name && Held(fleet, t.addr, path, name, snap)
    ensures SnapshotOn(conf, fleet, t, sourceId, path, name, m)
            == (Ok(CsiSnapshot(SnapshotId(t.configName, path, name), sourceId, snap.created)), fleet)
  {
    SnapPathParts(fleet, t.addr, path, name);
  }

  /** Dropping a snapshot succeeds on every appliance that is there, whether or not the
      snapshot is; the store changes exactly when it was. */
  lemma DropOutcome(fleet: Fleet, t: Target, path: string, name: string)
    requires t.addr in fleet && '@' !in path && '@' !in name
    ensures var (r, after) := DeleteSnapshotOn(fleet, t, path, name);
            && r == Ok(()) && Gone(after, t.addr, path, name)
            && (Gone(fleet, t.addr, path, name) ==> after == fleet)
            && (!Gone(fleet, t.addr, path, name) ==>
                  after == Put(fleet, t.addr, path,
                      fleet[t.addr].datasets[path].(snaps := SnapsIn(fleet, t.addr, path) - {name})))
  {
    SnapPathParts(fleet, t.addr, path, name);
  }

  /* ---------------------------------------------------------------- repeated requests */

  /** Asking again for a snapshot that was created gives the same reply, id and creation
      time included, and changes nothing: after every run that spares the snapshot, at any
      later moment and by whomever. */
  lemma CreateSnapshotAgain(conf: NodeMap, fleet: Fleet, t: Target, sourceId: string, path: string, name: string,
                            m: Moment, ops: seq<Op>, later: Moment)
    requires '@' !in path && '@' !in name
    requires SnapshotOn(conf, fleet, t, sourceId, path, name, m).0.Ok?
    requires forall i :: 0 <= i < |ops| ==> Spares(t.addr, path, name, ops[i])
    ensures var (r, after) := SnapshotOn(conf, fleet, t, sourceId, path, name, m);
            SnapshotOn(conf, Run(conf, after, ops), t, sourceId, path, name, later) == (r, Run(conf, after, ops))
  {
    var after := SnapshotOn(conf, fleet, t, sourceId, path, name, m).1;
    var snap := TakenIsHeld(conf, fleet, t, sourceId, path, name, m);
    RunKeepsHeld(conf, after, ops, t.addr, path, name, snap);
    TakeHeld(conf, Run(conf, after, ops), t, sourceId, path, name, later, snap);
  }

  /** The id of a volume that was found on a node which has the pool to itself among the nodes
      of its entry. */
  ghost predicate Settled(conf: NodeMap, index: ResolverMap, fleet: Fleet, info: VolumeInfo, t: Target) {
    && Answers(conf, index, fleet, VolumeParams(info), Found(t))
    && t.configName in index && Homed(index[t.configName], fleet, PoolOf(info.Path), t.addr)
  }

  /** Where a settled id leads later: back to the same target while its volume is there, and
      through the same entry to no other node. */
  lemma LeadsBack(conf: NodeMap, index: ResolverMap, fleet: Fleet, info: VolumeInfo, t: Target, after: Fleet)
    requires Settled(conf, index, fleet, info, t) && info.Path != ""
    requires Homed(index[t.configName], after, PoolOf(info.Path), t.addr)
    ensures t.datasetPath == info.Path && t.addr in fleet && HasNode(index[t.configName], t.addr)
    ensures info.ConfigName != "" ==> t.configName == info.ConfigName
    ensures Hosts(after, t.addr, info.Path) ==> Answers(conf, index, after, VolumeParams(info), Found(t))
    ensures forall u :: Answers(conf, index, after, VolumeParams(info), Found(u)) && u.configName == t.configName ==>
              u == t
  {
    FoundIsSound(conf, index, fleet, VolumeParams(info), t);
    FirstHostIsNode(index[t.configName], fleet, info.Path, t.addr);
    HomedResolves(index[t.configName], after, t.addr, info.Path);
    ResolveOnMeaning(index[t.configName], after, info.Path);
    forall u | Answers(conf, index, after, VolumeParams(info), Found(u)) && u.configName == t.configName
      ensures u == t
    {
      FoundIsSound(conf, index, after, VolumeParams(info), u);
      FirstHostIsNode(index[t.configName], after, info.Path, u.addr);
    }
  }

  lemma TakeKeepsHome(conf: NodeMap, fleet: Fleet, t: Target, path: string, name: string, m: Moment,
                      resolver: Resolver, pool: string, addr: string)
    requires Homed(resolver, fleet, pool, addr)
    ensures Homed(resolver, SnapshotVolume(conf, fleet, t, path, name, m).1, pool, addr)
  {
    SnapshotKeepsHosts(conf, fleet, t, path, name, m);
  }

  /** Every way in which the repeat may be resolved gives this reply and store. */
  ghost predicate RepeatsAs(conf: NodeMap, index: ResolverMap, info: VolumeInfo, sourceId: string, name: string,
                            later: Moment, r: Result<CsiSnapshot>, after: Fleet) {
    forall at :: Answers(conf, index, after, VolumeParams(info), at) ==>
      TakeSnapshotReply(conf, after, at, sourceId, info.Path, name, later) == (r, after)
  }

  /** The volume id names an entry, or no other entry has a volume of its path. */
  ghost predicate OneEntry(conf: NodeMap, index: ResolverMap, fleet: Fleet, info: VolumeInfo, name: string) {
    info.ConfigName != "" || forall n :: Serves(conf, index, fleet, VolumeParams(info), n) ==> n == name
  }

  /** Another entry that has the path replies with another id, or fails. */
  lemma AnotherId(conf: NodeMap, index: ResolverMap, fleet: Fleet, info: VolumeInfo, t: Target, sourceId: string,
                  name: string, later: Moment, n: string, r: CsiSnapshot)
    requires info.ConfigName == "" && info.Path != "" && n != t.configName
    requires Serves(conf, index, fleet, VolumeParams(info), n) && r.id == SnapshotId(t.configName, info.Path, name)
    ensures !RepeatsAs(conf, index, info, sourceId, name, later, Ok(r), fleet)
  {
    var u := ServingTarget(conf, index, fleet, VolumeParams(info), n);
    assert Answers(conf, index, fleet, VolumeParams(info), Found(u));
    var reply := TakeSnapshotReply(conf, fleet, Found(u), sourceId, info.Path, name, later).0;
    assert reply.Ok? ==> reply.value.id == SnapshotId(n, info.Path, name);
    SuffixTells(n, t.configName, ":" + info.Path + "@" + name);
    SameId(n, info.Path, name);
    SameId(t.configName, info.Path, name);
  }

  lemma SameId(entry: string, path: string, name: string)
    ensures SnapshotId(entry, path, name) == entry + (":" + path + "@" + name)
  {
  }

  lemma SuffixTells(a: string, b: string, suffix: string)
    requires a != b
    ensures a + suffix != b + suffix
  {
    assert (a + suffix)[..|a + suffix| - |suffix|] == a;
    assert (b + suffix)[..|b + suffix| - |suffix|] == b;
  }

  /** When nobody else has the path, the settled target is the only outcome. */
  lemma OnlyOutcome(conf: NodeMap, index: ResolverMap, fleet: Fleet, info: VolumeInfo, t: Target, after: Fleet,
                    at: Resolved)
    requires Settled(conf, index, fleet, info, t) && info.Path != "" && Hosts(after, t.addr, info.Path)
    requires Homed(index[t.configName], after, PoolOf(info.Path), t.addr)
    requires OneEntry(conf, index, after, info, t.configName) && Answers(conf, index, after, VolumeParams(info), at)
    ensures at == Found(t)
  {
    LeadsBack(conf, index, fleet, info, t, after);
    FoundIsSound(conf, index, after, VolumeParams(info), t);
    SoundServes(conf, index, after, VolumeParams(info), t);
    if at.Found? {
      FoundIsSound(conf, index, after, VolumeParams(info), at.target);
      SoundServes(conf, index, after, VolumeParams(info), at.target);
    }
  }

  /** The same for whole calls: after a successful request and any run of requests that
      spares the snapshot, the same request may be resolved to the same target; it gets the
      same reply and changes nothing, in whatever order the map is tried, exactly when its
      volume id names an entry or no other entry has the path. Otherwise it may be answered
      with the id of another entry's snapshot. */
  lemma RequestSnapshotAgain(conf: NodeMap, index: ResolverMap, fleet: Fleet, info: VolumeInfo, t: Target,
                             sourceId: string, name: string, m: Moment, calls: seq<Call>, later: Moment)
    requires Settled(conf, index, fleet, info, t) && '@' !in info.Path && '@' !in name
    requires SnapshotOn(conf, fleet, t, sourceId, info.Path, name, m).0.Ok?
    requires Called(conf, index, SnapshotOn(conf, fleet, t, sourceId, info.Path, name, m).1, calls)
    requires forall i :: 0 <= i < |calls| ==> Spares(t.addr, info.Path, name, calls[i].op)
    ensures var (r, after) := SnapshotOn(conf, fleet, t, sourceId, info.Path, name, m);
            var reached := After(conf, after, calls);
            && Answers(conf, index, reached, VolumeParams(info), Found(t))
            && (RepeatsAs(conf, index, info, sourceId, name, later, r, reached)
                <==> OneEntry(conf, index, reached, info, t.configName))
  {
    var (r, after) := SnapshotOn(conf, fleet, t, sourceId, info.Path, name, m);
    var reached := After(conf, after, calls);
    var resolver, pool := index[t.configName], PoolOf(info.Path);
    var snap := TakenIsHeld(conf, fleet, t, sourceId, info.Path, name, m);
    TakeKeepsHome(conf, fleet, t, info.Path, name, m, resolver, pool, t.addr);
    CallsKeepHome(conf, index, after, calls, resolver, pool, t.addr);
    AfterIsRun(conf, after, calls);
    RunKeepsHeld(conf, after, Steps(calls), t.addr, info.Path, name, snap);
    LeadsBack(conf, index, fleet, info, t, reached);
    CreateSnapshotAgain(conf, fleet, t, sourceId, info.Path, name, m, Steps(calls), later);
    if OneEntry(conf, index, reached, info, t.configName) {
      forall at | Answers(conf, index, reached, VolumeParams(info), at)
        ensures TakeSnapshotReply(conf, reached, at, sourceId, info.Path, name, later) == (r, reached)
      {
        OnlyOutcome(conf, index, fleet, info, t, reached, at);
      }
    } else {
      var n :| Serves(conf, index, reached, VolumeParams(info), n) && n != t.configName;
      AnotherId(conf, index, reached, info, t, sourceId, name, later, n, r.value);
    }
  }

  /* ---------------------------------------------------------------- deleting */

  /** A snapshot under a new name, deleted through its id, however its volume was named: the
      id decodes to the entry, the volume and the name and may be resolved to the same target.
      In whatever order the map is tried, deleting leaves the store as it was, exactly when
      the entry has a name or every entry with the path leads to this node. */
  lemma CreateThenDeleteSnapshot(conf: NodeMap, index: ResolverMap, fleet: Fleet, info: VolumeInfo, t: Target,
                                 sourceId: string, name: string, m: Moment)
    requires Settled(conf, index, fleet, info, t) && '@' !in info.Path && '@' !in name
    requires '@' !in t.configName && ':' !in t.configName && ':' !in info.Path
    requires Gone(fleet, t.addr, info.Path, name)
    requires SnapshotOn(conf, fleet, t, sourceId, info.Path, name, m).0.Ok?
    ensures var (r, after) := SnapshotOn(conf, fleet, t, sourceId, info.Path, name, m);
            var byId := VolumeInfo(t.configName, info.Path);
            && SnapTargeted(r.value.id) && SnapIdParams(r.value.id) == VolumeParams(byId)
            && SplitSnapshotId(r.value.id).value.1 == name
            && Answers(conf, index, after, VolumeParams(byId), Found(t))
            && ((forall at :: Answers(conf, index, after, VolumeParams(byId), at) ==>
                   DropSnapshotReply(after, at, info.Path, name) == (Ok(()), fleet))
                <==> t.configName != "" || LeadsTo(conf, index, after, byId, t.addr))
  {
    var (r, after) := SnapshotOn(conf, fleet, t, sourceId, info.Path, name, m);
    var byId := VolumeInfo(t.configName, info.Path);
    var snap := TakenIsHeld(conf, fleet, t, sourceId, info.Path, name, m);
    TakeKeepsHome(conf, fleet, t, info.Path, name, m, index[t.configName], PoolOf(info.Path), t.addr);
    LeadsBack(conf, index, fleet, info, t, after);
    SettledById(conf, index, after, info, t);
    IdDecodes(byId, name);
    DeleteRestores(conf, fleet, t, sourceId, info.Path, name, m);
    if t.configName == "" && !LeadsTo(conf, index, after, byId, t.addr) {
      var u :| Answers(conf, index, after, VolumeParams(byId), Found(u)) && u.addr != t.addr;
      DropEffect(after, u, info.Path, name, t.addr, info.Path);
      assert DropSnapshotReply(after, Found(u), info.Path, name).1 != fleet;
    }
  }

  /** An id made from the target leads to it as well, and with a named entry nowhere else. */
  lemma SettledById(conf: NodeMap, index: ResolverMap, fleet: Fleet, info: VolumeInfo, t: Target)
    requires Answers(conf, index, fleet, VolumeParams(info), Found(t)) && info.Path != ""
    ensures var byId := VolumeParams(VolumeInfo(t.configName, info.Path));
            && Answers(conf, index, fleet, byId, Found(t))
            && (t.configName != "" ==> forall at :: Answers(conf, index, fleet, byId, at) ==> at == Found(t))
            && (forall at :: Answers(conf, index, fleet, byId, at) ==> at.Found?)
  {
    FoundIsSound(conf, index, fleet, VolumeParams(info), t);
    ResolveOnMeaning(index[t.configName], fleet, info.Path);
    FirstHostUnique(index[t.configName], fleet, info.Path, t.addr,
        ResolveOn(index[t.configName], fleet, info.Path).value);
    SoundServes(conf, index, fleet, VolumeParams(info), t);
    if t.configName == "" {
      assert Serves(conf, index, fleet, VolumeParams(VolumeInfo(t.configName, info.Path)), t.configName);
    }
  }

  lemma IdDecodes(info: VolumeInfo, name: string)
    requires '@' !in info.Path && '@' !in name && '@' !in info.ConfigName && ':' !in info.ConfigName
             && ':' !in info.Path
    ensures var id := SnapshotId(info.ConfigName, info.Path, name);
            SnapTargeted(id) && SnapIdParams(id) == VolumeParams(info) && SplitSnapshotId(id).value.1 == name
  {
    SnapshotIdRoundTrip(info.ConfigName, info.Path, name);
  }

  lemma DeleteRestores(conf: NodeMap, fleet: Fleet, t: Target, sourceId: string, path: string, name: string, m: Moment)
    requires '@' !in path && '@' !in name && Gone(fleet, t.addr, path, name)
    requires SnapshotOn(conf, fleet, t, sourceId, path, name, m).0.Ok?
    ensures DeleteSnapshotOn(SnapshotOn(conf, fleet, t, sourceId, path, name, m).1, t, path, name) == (Ok(()), fleet)
  {
    var after := SnapshotOn(conf, fleet, t, sourceId, path, name, m).1;
    SnapPathParts(fleet, t.addr, path, name);
    DropOutcome(after, t, path, name);
    var ds := fleet[t.addr].datasets[path];
    assert ds.snaps[name := Snap(ds.content, m.user, m.now)] - {name} == ds.snaps;
    PutTwice(fleet, t.addr, path, after[t.addr].datasets[path]);
  }

  /** Writing a dataset's old value back restores the store. */
  lemma PutTwice(fleet: Fleet, addr: string, path: string, ds: Dataset)
    requires Hosts(fleet, addr, path)
    ensures Put(Put(fleet, addr, path, ds), addr, path, fleet[addr].datasets[path]) == fleet
  {
    var node := fleet[addr];
    assert node.datasets[path := ds][path := node.datasets[path]] == node.datasets;
    assert Put(Put(fleet, addr, path, ds), addr, path, node.datasets[path]) == fleet[addr := node];
  }

  /** Deleting a snapshot after any run that spares it removes it and leaves everything else;
      deleting it again, after any further run that does not take it again, succeeds and
      changes nothing. */
  lemma DeleteSnapshotAgain(conf: NodeMap, fleet: Fleet, t: Target, path: string, name: string, snap: Snap,
                            before: seq<Op>, ops: seq<Op>)
    requires '@' !in path && '@' !in name && Held(fleet, t.addr, path, name, snap)
    requires forall i :: 0 <= i < |before| ==> Spares(t.addr, path, name, before[i])
    requires forall i :: 0 <= i < |ops| ==> Avoids(t.addr, path, name, ops[i])
    ensures var reached := Run(conf, fleet, before);
            var (r, after) := DeleteSnapshotOn(reached, t, path, name);
            && Hosts(reached, t.addr, path)
            && (r, after) == (Ok(()), Put(reached, t.addr, path, reached[t.addr].datasets[path].(
                                            snaps := SnapsIn(reached, t.addr, path) - {name})))
            && Gone(after, t.addr, path, name)
            && DeleteSnapshotOn(Run(conf, after, ops), t, path, name) == (Ok(()), Run(conf, after, ops))
  {
    RunKeepsHeld(conf, fleet, before, t.addr, path, name, snap);
    var reached := Run(conf, fleet, before);
    DropOutcome(reached, t, path, name);
    var after := DeleteSnapshotOn(reached, t, path, name).1;
    RunKeepsGone(conf, after, ops, t.addr, path, name);
    RunKeepsNodes(conf, after, ops);
    DropOutcome(Run(conf, after, ops), t, path, name);
  }

  /** The same for whole calls: once a snapshot is gone, and after any run of requests that
      does not take it again, even one that deletes its volume, deleting it by its id
      succeeds and changes nothing, in whatever order the map is tried, exactly when the id
      names an entry, or some entry has the path and none leads to a node with such a snapshot. */
  lemma RequestDeleteAgain(conf: NodeMap, index: ResolverMap, fleet: Fleet, info: VolumeInfo, t: Target, name: string,
                           calls: seq<Call>)
    requires Settled(conf, index, fleet, info, t) && '@' !in info.Path && '@' !in name && info.Path != ""
    requires Called(conf, index, DeleteSnapshotOn(fleet, t, info.Path, name).1, calls)
    requires forall i :: 0 <= i < |calls| ==> Avoids(t.addr, info.Path, name, calls[i].op)
    requires Reachable(index[t.configName], fleet)
    ensures var reached := After(conf, DeleteSnapshotOn(fleet, t, info.Path, name).1, calls);
            (forall at :: Answers(conf, index, reached, VolumeParams(info), at) ==>
               DropSnapshotReply(reached, at, info.Path, name) == (Ok(()), reached))
            <==> || info.ConfigName != ""
                 || (&& (exists n :: Serves(conf, index, reached, VolumeParams(info), n))
                     && GoneWherever(conf, index, reached, info, name))
  {
    var after := DeleteSnapshotOn(fleet, t, info.Path, name).1;
    var reached := After(conf, after, calls);
    var resolver, pool := index[t.configName], PoolOf(info.Path);
    LeadsBack(conf, index, fleet, info, t, fleet);
    DropOutcome(fleet, t, info.Path, name);
    DropKeepsHome(fleet, t, info.Path, name, resolver, pool, t.addr);
    CallsKeepHome(conf, index, after, calls, resolver, pool, t.addr);
    AfterIsRun(conf, after, calls);
    RunKeepsGone(conf, after, Steps(calls), t.addr, info.Path, name);
    LeadsBack(conf, index, fleet, info, t, reached);
    DropOutcome(reached, t, info.Path, name);
    if info.ConfigName != "" {
      ResolveOnMeaning(resolver, reached, info.Path);
    } else {
      UnnamedDelete(conf, index, reached, info, name);
    }
  }

  /** No node that the id may lead to has a snapshot of this name on the volume. */
  ghost predicate GoneWherever(conf: NodeMap, index: ResolverMap, fleet: Fleet, info: VolumeInfo, name: string) {
    forall u :: Answers(conf, index, fleet, VolumeParams(info), Found(u)) ==> Gone(fleet, u.addr, info.Path, name)
  }

  lemma UnnamedDelete(conf: NodeMap, index: ResolverMap, fleet: Fleet, info: VolumeInfo, name: string)
    requires info.ConfigName == "" && info.Path != "" && '@' !in info.Path && '@' !in name
    ensures (forall at :: Answers(conf, index, fleet, VolumeParams(info), at) ==>
               DropSnapshotReply(fleet, at, info.Path, name) == (Ok(()), fleet))
            <==> && (exists n :: Serves(conf, index, fleet, VolumeParams(info), n))
                 && GoneWherever(conf, index, fleet, info, name)
  {
    var p := VolumeParams(info);
    if !exists n :: Serves(conf, index, fleet, p, n) {
      assert Answers(conf, index, fleet, p, Unresolved(NoProvider));
      assert DropSnapshotReply(fleet, Unresolved(NoProvider), info.Path, name).0 == Err(Internal);
    }
    forall u | Answers(conf, index, fleet, p, Found(u))
      ensures DropSnapshotReply(fleet, Found(u), info.Path, name) == (Ok(()), fleet)
              <==> Gone(fleet, u.addr, info.Path, name)
    {
      FoundIsHosted(conf, index, fleet, p, u);
      DropOutcome(fleet, u, info.Path, name);
    }
  }

  lemma DropKeepsHome(fleet: Fleet, t: Target, path: string, name: string, resolver: Resolver, pool: string,
                      addr: string)
    requires Homed(resolver, fleet, pool, addr)
    ensures var after := DeleteSnapshotOn(fleet, t, path, name).1;
            after.Keys == fleet.Keys && Homed(resolver, after, pool, addr)
  {
    var after := DeleteSnapshotOn(fleet, t, path, name).1;
    StepHosts(map[], fleet, DropSnapshot(t, path, name));
    assert after == Step(map[], fleet, DropSnapshot(t, path, name));
  }

  /* ---------------------------------------------------------------- volumes that are nowhere */

  /** What a volume that no node hosts comes to in the calls that forgive its absence: a
      delete of the volume always succeeds; a delete and a lookup of one of its snapshots
      succeed exactly when the id names an entry, and fail with an internal error otherwise. */
  lemma MissingReplies(conf: NodeMap, index: ResolverMap, fleet: Fleet, info: VolumeInfo, name: string, at: Resolved)
    requires NoneHosts(conf, index, fleet, VolumeParams(info)) && Answers(conf, index, fleet, VolumeParams(info), at)
    ensures at.Unresolved?
    ensures DeleteReply(fleet, at, info.Path) == (Ok(()), fleet)
    ensures DropSnapshotReply(fleet, at, info.Path, name)
            == (if info.ConfigName != "" then Ok(()) else Err(Internal), fleet)
    ensures SingleReply(fleet, at, info.Path, name) == if info.ConfigName != "" then Ok([]) else Err(Internal)
  {
    MissingEverywhere(conf, index, fleet, VolumeParams(info), at);
  }

  /** A snapshot id without an entry decodes to a request for the path alone. */
  lemma BareIdDecodes(path: string, name: string)
    requires '@' !in path && '@' !in name && ':' !in path
    ensures var id := SnapPath(path, name);
            SnapTargeted(id) && SnapIdParams(id) == Params(path, "", "") && SplitSnapshotId(id).value.1 == name
  {
    SplitCons(path, '@', name);
    SplitNone(name, '@');
    SplitNone(path, ':');
  }

  /** For instance every snapshot id "path@name" of a volume that is nowhere: deleting it fails. */
  lemma UnnamedMissingSnapshot(conf: NodeMap, index: ResolverMap, fleet: Fleet, path: string, name: string,
                               at: Resolved)
    requires '@' !in path && '@' !in name && ':' !in path
    requires NoneHosts(conf, index, fleet, Params(path, "", ""))
             && Answers(conf, index, fleet, Params(path, "", ""), at)
    ensures var id := SnapPath(path, name);
            && SnapTargeted(id) && SnapIdParams(id) == Params(path, "", "")
            && DropSnapshotReply(fleet, at, SnapIdParams(id).datasetPath, SplitSnapshotId(id).value.1)
               == (Err(Internal), fleet)
  {
    BareIdDecodes(path, name);
    MissingReplies(conf, index, fleet, VolumeInfo("", path), name, at);
  }

  /** A request by an id that names an entry but no path, when the entry was removed: a delete
      of the volume counts as done, everything else fails with an internal error. */
  lemma RemovedEntry(conf: NodeMap, index: ResolverMap, fleet: Fleet, entry: string, name: string, m: Moment,
                     at: Resolved)
    requires entry != "" && entry !in conf && Answers(conf, index, fleet, VolumeParams(VolumeInfo(entry, "")), at)
    ensures DeleteReply(fleet, at, "") == (Ok(()), fleet)
    ensures DropSnapshotReply(fleet, at, "", name) == (Err(Internal), fleet)
    ensures TakeSnapshotReply(conf, fleet, at, VolumeId(entry, ""), "", name, m) == (Err(Internal), fleet)
    ensures SingleReply(fleet, at, "", name) == Err(Internal)
  {
  }
}
