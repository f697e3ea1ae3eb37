/** Repeating a request: when it gives the same reply and leaves the store as it is, in
    whatever order the resolver map is tried. */
module RepeatLaws {
  import opened Text
  import opened Status
  import opened Storage
  import opened Configuration
  import opened Resolution
  import opened Identifiers
  import opened Provision
  import opened Runs
  import opened RunLaws
  import opened CloneLaws
  import opened VolumeLaws

  /* ---------------------------------------------------------------- the same target */

  /** A request that can be repeated on its target: a restore always, a clone of a volume
      with a proper path, a blank volume of no positive size or on a path the driver lists. */
  predicate Repeatable(t: Target, req: CreateRequest) {
    if IsClone(req) then '@' !in SourceOf(t, req)
    else IsRestore(req) || req.capacity <= 0 || Usable(PathOf(t, req))
  }

  lemma ClonePlain(conf: NodeMap, fleet: Fleet, t: Target, source: string, path: string, name: string, capacity: int,
                   m: Moment)
    requires ClonedVolume(conf, fleet, t, source, path, name, capacity, m).0.Ok?
    ensures '@' !in path && SnapshotVolume(conf, fleet, t, source, CloneSnapName(name), m).0.Ok?
  {
  }

  lemma NameInPath(t: Target, req: CreateRequest)
    requires '@' !in PathOf(t, req)
    ensures '@' !in req.name
  {
    var path := PathOf(t, req);
    forall k | 0 <= k < |req.name| ensures req.name[k] != '@' {
      assert path[|t.datasetPath| + 1 + k] == req.name[k];
    }
  }

  /** A snapshot of a path that holds the separator can be taken but never found. */
  lemma NeverFound(conf: NodeMap, fleet: Fleet, t: Target, path: string, name: string, m: Moment)
    requires '@' in path
    ensures var (r, after) := SnapshotVolume(conf, fleet, t, path, name, m);
            && (r.Ok? ==> name in SnapsIn(after, t.addr, path))
            && (name in SnapsIn(fleet, t.addr, path) ==> r.Err?)
  {
    SnapPathParts(fleet, t.addr, path, name);
    AtTwice(path, name);
  }

  lemma CloneOfOddPath(conf: NodeMap, fleet: Fleet, t: Target, req: CreateRequest, zone: string, m: Moment,
                       later: Moment)
    requires IsClone(req) && '@' in SourceOf(t, req) && CreateOn(conf, fleet, t, req, zone, m).0.Ok?
    ensures CreateOn(conf, CreateOn(conf, fleet, t, req, zone, m).1, t, req, zone, later).0.Err?
  {
    var source, name := SourceOf(t, req), CloneSnapName(req.name);
    var after := CreateOn(conf, fleet, t, req, zone, m).1;
    CloneMakes(conf, fleet, t, req, m);
    ClonePlain(conf, fleet, t, source, PathOf(t, req), req.name, req.capacity, m);
    NeverFound(conf, fleet, t, source, name, m);
    CreateSnaps(conf, fleet, t, req, zone, m);
    assert SnapsIn(after, t.addr, source) == SnapsIn(Between(conf, fleet, t, req, m), t.addr, source);
    NeverFound(conf, after, t, source, name, later);
    CloneMakes(conf, after, t, req, later);
  }

  /** With its snapshot and its volume there a restore succeeds and changes nothing. */
  lemma RestoreOnExisting(fleet: Fleet, addr: string, snapName: string, path: string, capacity: int)
    requires GetSnapshot(fleet, addr, snapName).Done? && GetSnapshot(fleet, addr, snapName).value.Path != ""
    requires Hosts(fleet, addr, path) && path != "" && '@' !in path
    ensures VolumeFromSnapshot(fleet, addr, snapName, path, capacity) == (Ok(()), fleet)
  {
  }

  lemma RestorePlain(fleet: Fleet, addr: string, snapName: string, path: string, capacity: int)
    requires VolumeFromSnapshot(fleet, addr, snapName, path, capacity).0.Ok?
    ensures '@' !in path && path != "" && GetSnapshot(fleet, addr, snapName).Done?
    ensures GetSnapshot(fleet, addr, snapName).value.Path != ""
  {
  }

  lemma StillListed(after: Fleet, before: Fleet, addr: string, snapName: string)
    requires SnapsSame(after, before) && GetSnapshot(before, addr, snapName).Done?
    ensures GetSnapshot(after, addr, snapName) == GetSnapshot(before, addr, snapName)
  {
    var (path, name) := SnapshotAt(before, addr, snapName).value;
    assert SnapsIn(after, addr, path) == SnapsIn(before, addr, path);
  }

  /** Repeating a successful restore always gives the same reply and changes nothing. */
  lemma CreateRestoreAgain(conf: NodeMap, fleet: Fleet, t: Target, req: CreateRequest, zone: string, m: Moment,
                           later: Moment)
    requires IsRestore(req) && CreateOn(conf, fleet, t, req, zone, m).0.Ok?
    ensures var (r, after) := CreateOn(conf, fleet, t, req, zone, m);
            CreateOn(conf, after, t, req, zone, later) == (r, after)
  {
    var path, snapName := PathOf(t, req), ParseVolumeID(req.source.value.id).value.Path;
    var after := CreateOn(conf, fleet, t, req, zone, m).1;
    RestoreMakes(conf, fleet, t, req, m);
    RestorePlain(fleet, t.addr, snapName, path, req.capacity);
    CreateSnaps(conf, fleet, t, req, zone, m);
    StillListed(after, fleet, t.addr, snapName);
    CreatedIsThere(conf, fleet, t, req, zone, m);
    RestoreOnExisting(after, t.addr, snapName, path, req.capacity);
    RestoreMakes(conf, after, t, req, later);
    if req.nfsAccessList.Some? {
      ShareAgain(MakeVolume(conf, fleet, t, req, m).1, t.addr, path, req.nfsAccessList.value);
    }
  }

  /** On the same target a successful request can be repeated exactly when it is repeatable. */
  lemma CreateAgainIff(conf: NodeMap, fleet: Fleet, t: Target, req: CreateRequest, zone: string, m: Moment,
                       later: Moment)
    requires CreateParams(conf, req, zone).Ok? && CreateOn(conf, fleet, t, req, zone, m).0.Ok?
    ensures var (r, after) := CreateOn(conf, fleet, t, req, zone, m);
            CreateOn(conf, after, t, req, zone, later) == (r, after) <==> Repeatable(t, req)
  {
    if IsClone(req) {
      if '@' in SourceOf(t, req) {
        CloneOfOddPath(conf, fleet, t, req, zone, m, later);
      } else {
        CloneMakes(conf, fleet, t, req, m);
        ClonePlain(conf, fleet, t, SourceOf(t, req), PathOf(t, req), req.name, req.capacity, m);
        NameInPath(t, req);
        CreateCloneAgain(conf, fleet, t, req, zone, m, later);
      }
    } else if IsRestore(req) {
      CreateRestoreAgain(conf, fleet, t, req, zone, m, later);
    } else {
      CreateBlankAgain(conf, fleet, t, req, zone, m, later);
    }
  }

  /* ---------------------------------------------------------------- any target */

  /** No other entry serves a request that names none. */
  ghost predicate OnlyServedBy(conf: NodeMap, index: ResolverMap, fleet: Fleet, p: Params, name: string) {
    p.configName != "" || forall n :: Serves(conf, index, fleet, p, n) ==> n == name
  }

  /** The target of a successful request may be resolved again, and is the only one that
      its entry gives. */
  lemma FoundAgain(conf: NodeMap, index: ResolverMap, fleet: Fleet, req: CreateRequest, zone: string, p: Params,
                   t: Target, m: Moment)
    requires Answers(conf, index, fleet, p, Found(t))
    ensures var after := CreateOn(conf, fleet, t, req, zone, m).1;
            && Answers(conf, index, after, p, Found(t))
            && forall u :: Answers(conf, index, after, p, Found(u)) && u.configName == t.configName ==> u == t
  {
    var after := CreateOn(conf, fleet, t, req, zone, m).1;
    FoundIsSound(conf, index, fleet, p, t);
    CreateAddsOnly(conf, fleet, t, req, zone, m);
    assert |t.datasetPath| < |PathOf(t, req)|;
    assert forall a :: Hosts(after, a, t.datasetPath) <==> Hosts(fleet, a, t.datasetPath);
    StillFound(conf, index, fleet, after, p, t);
    forall u | Answers(conf, index, after, p, Found(u)) && u.configName == t.configName ensures u == t {
      FoundIsSound(conf, index, after, p, u);
      FirstHostUnique(index[t.configName], after, t.datasetPath, t.addr, u.addr);
    }
  }

  lemma StillFound(conf: NodeMap, index: ResolverMap, before: Fleet, after: Fleet, p: Params, t: Target)
    requires Answers(conf, index, before, p, Found(t)) && before.Keys == after.Keys
    requires forall a :: Hosts(after, a, t.datasetPath) <==> Hosts(before, a, t.datasetPath)
    ensures Answers(conf, index, after, p, Found(t)) && Sound(conf, index, after, p, t)
  {
    FoundIsSound(conf, index, before, p, t);
    SameHostsSameScan(index[t.configName].Nodes, before, after, t.datasetPath, Other);
    if p.configName == "" {
      SameFirstHost(index[t.configName], before, after, t.datasetPath, t.addr);
    }
    FoundIsSound(conf, index, after, p, t);
  }

  lemma SameFirstHost(resolver: Resolver, before: Fleet, after: Fleet, path: string, addr: string)
    requires FirstHost(resolver, before, path, addr)
    requires forall a :: Hosts(after, a, path) <==> Hosts(before, a, path)
    ensures FirstHost(resolver, after, path, addr)
  {
    var i :| 0 <= i < |resolver.Nodes| && resolver.Nodes[i].Address == addr && Hosts(before, addr, path)
             && forall k :: 0 <= k < i ==> !Hosts(before, resolver.Nodes[k].Address, path);
    assert Hosts(after, addr, path) && forall k :: 0 <= k < i ==> !Hosts(after, resolver.Nodes[k].Address, path);
  }

  /** Volume ids of different entries differ. */
  lemma IdsDiffer(a: string, x: string, b: string, y: string)
    requires a != b && (x == y || (':' !in a && ':' !in b))
    ensures VolumeId(a, x) != VolumeId(b, y)
  {
    if x == y {
      assert VolumeId(a, x)[..|VolumeId(a, x)| - |x| - 1] == a;
      assert VolumeId(b, y)[..|VolumeId(b, y)| - |y| - 1] == b;
    } else {
      SplitCons(a, ':', x);
      SplitCons(b, ':', y);
      assert Split(VolumeId(a, x), ':')[0] == a;
      assert Split(VolumeId(b, y), ':')[0] == b;
    }
  }

  lemma AnotherEntry(conf: NodeMap, index: ResolverMap, fleet: Fleet, req: CreateRequest, zone: string, p: Params,
                     t: Target, m: Moment, n: string, later: Moment)
    requires CreateOn(conf, fleet, t, req, zone, m).0.Ok? && p.configName == "" && Sound(conf, index, fleet, p, t)
    requires n != t.configName && Serves(conf, index, CreateOn(conf, fleet, t, req, zone, m).1, p, n)
    requires p.datasetPath == "" ==> ':' !in t.configName && ':' !in n
    ensures var (r, after) := CreateOn(conf, fleet, t, req, zone, m);
            exists u :: && Answers(conf, index, after, p, Found(u)) && u.configName == n
                        && CreateReply(conf, after, Found(u), req, zone, later) != (r, after)
                        && (CreateReply(conf, after, Found(u), req, zone, later).0.Ok? ==>
                              CreateReply(conf, after, Found(u), req, zone, later).0.value.id != r.value.id)
  {
    var (r, after) := CreateOn(conf, fleet, t, req, zone, m);
    var u := ServingTarget(conf, index, after, p, n);
    IdsDiffer(u.configName, PathOf(u, req), t.configName, PathOf(t, req));
    assert r.value.id == VolumeId(t.configName, PathOf(t, req));
    var (q, other) := CreateOn(conf, after, u, req, zone, later);
    assert q.Ok? ==> q.value.id == VolumeId(u.configName, PathOf(u, req));
    assert Answers(conf, index, after, p, Found(u));
  }

  /** Every way in which a repeated request may be resolved gives this reply and store. */
  ghost predicate RepeatsAs(conf: NodeMap, index: ResolverMap, p: Params, req: CreateRequest, zone: string,
                            later: Moment, r: Result<Volume>, after: Fleet) {
    forall at :: Answers(conf, index, after, p, at) ==> CreateReply(conf, after, at, req, zone, later) == (r, after)
  }

  /** Repeating a successful request gives the same reply and changes nothing, in whatever
      order the map is tried, exactly when it is repeatable on its target and either names an
      entry or is served by no other. Otherwise the repeat may be refused, or may make a
      second volume elsewhere and reply with another id. When a dataset is given the entries
      that serve can be told before the first request. */
  lemma RequestCreateAgainIff(conf: NodeMap, index: ResolverMap, fleet: Fleet, req: CreateRequest, zone: string,
                              p: Params, t: Target, m: Moment, later: Moment)
    requires Agrees(conf, index) && CreateParams(conf, req, zone) == Ok(p)
    requires Answers(conf, index, fleet, p, Found(t)) && CreateOn(conf, fleet, t, req, zone, m).0.Ok?
    requires p.configName == "" && p.datasetPath == "" ==> forall name :: name in conf ==> ':' !in name
    ensures var (r, after) := CreateOn(conf, fleet, t, req, zone, m);
            && (RepeatsAs(conf, index, p, req, zone, later, r, after)
                <==> Repeatable(t, req) && OnlyServedBy(conf, index, after, p, t.configName))
            && (p.datasetPath != "" ==> (OnlyServedBy(conf, index, after, p, t.configName)
                                         <==> OnlyServedBy(conf, index, fleet, p, t.configName)))
  {
    var (r, after) := CreateOn(conf, fleet, t, req, zone, m);
    FoundIsSound(conf, index, fleet, p, t);
    FoundAgain(conf, index, fleet, req, zone, p, t, m);
    CreateAgainIff(conf, fleet, t, req, zone, m, later);
    if Repeatable(t, req) && OnlyServedBy(conf, index, after, p, t.configName) {
      forall at | Answers(conf, index, after, p, at)
        ensures CreateReply(conf, after, at, req, zone, later) == (r, after)
      {
        OnlyTarget(conf, index, after, p, t, at);
      }
    }
    if Repeatable(t, req) && !OnlyServedBy(conf, index, after, p, t.configName) {
      var n :| Serves(conf, index, after, p, n) && n != t.configName;
      AnotherEntry(conf, index, fleet, req, zone, p, t, m, n, later);
    }
    if !Repeatable(t, req) {
      assert CreateReply(conf, after, Found(t), req, zone, later) != (r, after);
    }
    if p.datasetPath != "" {
      ServedAsBefore(conf, index, fleet, req, zone, p, t, m);
    }
  }

  /** When no other entry serves, the target is the only outcome. */
  lemma OnlyTarget(conf: NodeMap, index: ResolverMap, fleet: Fleet, p: Params, t: Target, at: Resolved)
    requires Agrees(conf, index) && Answers(conf, index, fleet, p, Found(t))
    requires forall u :: Answers(conf, index, fleet, p, Found(u)) && u.configName == t.configName ==> u == t
    requires OnlyServedBy(conf, index, fleet, p, t.configName) && Answers(conf, index, fleet, p, at)
    ensures at == Found(t)
  {
    FoundIsSound(conf, index, fleet, p, t);
    SoundServes(conf, index, fleet, p, t);
    if at.Found? {
      FoundIsSound(conf, index, fleet, p, at.target);
      SoundServes(conf, index, fleet, p, at.target);
    }
  }

  /** A new volume does not change who serves a request for a given dataset. */
  lemma ServedAsBefore(conf: NodeMap, index: ResolverMap, fleet: Fleet, req: CreateRequest, zone: string, p: Params,
                       t: Target, m: Moment)
    requires p.datasetPath != "" && t.datasetPath == p.datasetPath
    ensures var after := CreateOn(conf, fleet, t, req, zone, m).1;
            forall n :: Serves(conf, index, after, p, n) <==> Serves(conf, index, fleet, p, n)
  {
    var after := CreateOn(conf, fleet, t, req, zone, m).1;
    CreateAddsOnly(conf, fleet, t, req, zone, m);
    assert |t.datasetPath| < |PathOf(t, req)|;
    assert forall a :: Hosts(after, a, p.datasetPath) <==> Hosts(fleet, a, p.datasetPath);
  }

  /* ---------------------------------------------------------------- the first entry */

  /** A blank request that names nothing but a zone asks for the first entry, and is refused
      when that one is in another zone, whoever else serves the zone. */
  lemma FirstEntryDecides(conf: NodeMap, index: ResolverMap, fleet: Fleet, req: CreateRequest, zone: string, m: Moment,
                          at: Resolved)
    requires IsBlank(req) && req.dataset == "" && req.configName == "" && conf != map[] && "" !in conf && zone != ""
    ensures CreateParams(conf, req, zone).Ok?
    ensures var first := Sorted(conf.Keys);
            first != [] && first[0] in conf
            && (conf[first[0]].Zone != zone && Answers(conf, index, fleet, CreateParams(conf, req, zone).value, at) ==>
                  at == Unresolved(ZoneMismatch)
                  && CreateReply(conf, fleet, at, req, zone, m) == (Err(Internal), fleet))
  {
    var name :| name in conf;
    assert name in Sorted(conf.Keys);
    AskedFor(conf, req, zone);
  }

  /* ---------------------------------------------------------------- point-in-time clones */

  lemma SamePath(a: string, b: string, name: string)
    requires JoinPath(a, name) == JoinPath(b, name)
    ensures a == b
  {
    assert JoinPath(a, name)[..|JoinPath(a, name)| - |name| - 1] == a;
    assert JoinPath(b, name)[..|JoinPath(b, name)| - |name| - 1] == b;
  }

  /** The same clone request is harmless to its clone wherever it is resolved to. */
  lemma RetryHarmless(c: Clone, t: Target, u: Target, req: CreateRequest, zone: string, m: Moment)
    requires IsCloneOf(c, t, req)
    ensures Harmless(c, Create(u, req, zone, m))
  {
    if JoinPath(u.datasetPath, req.name) == c.target {
      SamePath(u.datasetPath, t.datasetPath, req.name);
    }
  }

  /** A request resolved through the same entry later goes to the same target, as long as the
      pool stays where it is. */
  lemma SameEntrySameTarget(conf: NodeMap, index: ResolverMap, fleet: Fleet, reached: Fleet, p: Params, t: Target,
                            u: Target)
    requires Answers(conf, index, fleet, p, Found(t)) && Answers(conf, index, reached, p, Found(u))
    requires u.configName == t.configName && t.configName in index
    requires Homed(index[t.configName], reached, PoolOf(t.datasetPath), t.addr)
    ensures u == t
  {
    FoundIsSound(conf, index, fleet, p, t);
    FoundIsSound(conf, index, reached, p, u);
    FirstHostIsNode(index[t.configName], reached, u.datasetPath, u.addr);
  }

  lemma {:induction false} CallsKeepImage(c: Clone, conf: NodeMap, fleet: Fleet, calls: seq<Call>, content: string)
    requires Proper(c) && Faithful(c, fleet, content) && forall i :: 0 <= i < |calls| ==> Harmless(c, calls[i].op)
    ensures Faithful(c, After(conf, fleet, calls), content)
    decreases |calls|
  {
    if calls != [] {
      StepKeepsImage(c, conf, fleet, calls[0].op, content);
      CallsKeepImage(c, conf, Step(conf, fleet, calls[0].op), calls[1..], content);
    }
  }

  /** Point in time for whole calls: a clone request was cut off, or not, after its snapshot,
      and a run of harmless requests followed. However the repeated request is then resolved,
      the clone has no later content, and if the repeat goes through the same entry, as it
      must when one is named, and succeeds, the clone has exactly the content of the snapshot. */
  lemma RequestPointInTime(c: Clone, conf: NodeMap, index: ResolverMap, fleet: Fleet, req: CreateRequest, zone: string,
                           p: Params, t: Target, m: Moment, calls: seq<Call>, at: Resolved, later: Moment)
    requires Proper(c) && IsCloneOf(c, t, req) && CreateParams(conf, req, zone) == Ok(p)
    requires Answers(conf, index, fleet, p, Found(t)) && t.configName in index
    requires Homed(index[t.configName], fleet, PoolOf(t.datasetPath), t.addr)
    requires Hosts(fleet, c.addr, c.source) && SnapName(c) !in fleet[c.addr].datasets[c.source].snaps
    requires !Hosts(fleet, c.addr, c.target) && SnapshotVolume(conf, fleet, t, c.source, SnapName(c), m).0.Ok?
    requires Called(conf, index, SnapshotVolume(conf, fleet, t, c.source, SnapName(c), m).1, calls)
    requires forall i :: 0 <= i < |calls| ==> Harmless(c, calls[i].op)
    requires Answers(conf, index, After(conf, SnapshotVolume(conf, fleet, t, c.source, SnapName(c), m).1, calls), p, at)
    ensures var content := fleet[c.addr].datasets[c.source].content;
            var reached := After(conf, SnapshotVolume(conf, fleet, t, c.source, SnapName(c), m).1, calls);
            var (r, after) := CreateReply(conf, reached, at, req, zone, later);
            && Faithful(c, after, content)
            && (p.configName != "" && at.Found? ==> at.target.configName == t.configName)
            && (r.Ok? && at.target.configName == t.configName ==>
                  && at == Found(t) && Hosts(after, c.addr, c.target)
                  && after[c.addr].datasets[c.target].content == content)
  {
    var content := fleet[c.addr].datasets[c.source].content;
    FirstAttempt(c, conf, fleet, t, m);
    var imaged := SnapshotVolume(conf, fleet, t, c.source, SnapName(c), m).1;
    CallsKeepImage(c, conf, imaged, calls, content);
    var reached := After(conf, imaged, calls);
    if at.Found? {
      var u := at.target;
      RetryHarmless(c, t, u, req, zone, later);
      StepKeepsImage(c, conf, reached, Create(u, req, zone, later), content);
      FoundIsSound(conf, index, fleet, p, t);
      FoundIsSound(conf, index, reached, p, u);
      if u.configName == t.configName {
        SnapshotKeepsHosts(conf, fleet, t, c.source, SnapName(c), m);
        CallsKeepHome(conf, index, imaged, calls, index[t.configName], PoolOf(t.datasetPath), t.addr);
        SameEntrySameTarget(conf, index, fleet, reached, p, t, u);
        if CreateOn(conf, reached, u, req, zone, later).0.Ok? {
          CreatedIsThere(conf, reached, u, req, zone, later);
        }
      }
    }
  }
}
