/** What new volumes hold, as requests ask for it: clones under different names do not
    share their snapshots, and a restore takes its dataset's content. */
module ContentLaws {
  import opened Text
  import opened Status
  import opened Storage
  import opened Configuration
  import opened Resolution
  import opened Identifiers
  import opened Provision
  import opened Runs
  import opened RunLaws
  import opened CloneLaws
  import opened VolumeLaws
  import opened RepeatLaws

  /** The clone a request is for. */
  function CloneFor(t: Target, req: CreateRequest): Clone
    requires IsClone(req)
  {
    Clone(t.addr, SourceOf(t, req), req.name, PathOf(t, req))
  }

  lemma CloneForRequest(conf: NodeMap, fleet: Fleet, t: Target, req: CreateRequest, zone: string, m: Moment)
    requires IsClone(req) && '@' !in SourceOf(t, req) && SourceOf(t, req) != PathOf(t, req)
    requires CreateOn(conf, fleet, t, req, zone, m).0.Ok?
    ensures var c := CloneFor(t, req);
            && Proper(c) && SnapName(c) == "k8s-clone-snapshot-" + req.name
            && ClonedVolume(conf, fleet, t, c.source, c.target, c.volumeName, req.capacity, m).0.Ok?
            && SnapshotVolume(conf, fleet, t, c.source, SnapName(c), m).0.Ok?
  {
    CloneMakes(conf, fleet, t, req, m);
    ClonePlain(conf, fleet, t, SourceOf(t, req), PathOf(t, req), req.name, req.capacity, m);
    NameInPath(t, req);
  }

  /** Sharing a new volume does not change what it holds. */
  lemma ContentAsMade(conf: NodeMap, fleet: Fleet, t: Target, req: CreateRequest, zone: string, m: Moment)
    requires CreateOn(conf, fleet, t, req, zone, m).0.Ok?
    ensures var made := MakeVolume(conf, fleet, t, req, m).1;
            var after := CreateOn(conf, fleet, t, req, zone, m).1;
            && Hosts(made, t.addr, PathOf(t, req)) && Hosts(after, t.addr, PathOf(t, req))
            && after[t.addr].datasets[PathOf(t, req)].content == made[t.addr].datasets[PathOf(t, req)].content
  {
    MadeIsThere(conf, fleet, t, req, m);
    if req.nfsAccessList.Some? {
      ShareKeepsData(MakeVolume(conf, fleet, t, req, m).1, t.addr, PathOf(t, req), req.nfsAccessList.value);
    }
  }

  /** A first clone of its name holds what its source holds. */
  lemma FirstClone(conf: NodeMap, fleet: Fleet, t: Target, req: CreateRequest, zone: string, m: Moment)
    requires IsClone(req) && '@' !in SourceOf(t, req) && SourceOf(t, req) != PathOf(t, req)
    requires Hosts(fleet, t.addr, SourceOf(t, req)) && !Hosts(fleet, t.addr, PathOf(t, req))
    requires "k8s-clone-snapshot-" + req.name !in SnapsIn(fleet, t.addr, SourceOf(t, req))
    requires CreateOn(conf, fleet, t, req, zone, m).0.Ok?
    ensures var after := CreateOn(conf, fleet, t, req, zone, m).1;
            var content := fleet[t.addr].datasets[SourceOf(t, req)].content;
            && Faithful(CloneFor(t, req), after, content) && Hosts(after, t.addr, PathOf(t, req))
            && after[t.addr].datasets[PathOf(t, req)].content == content
            && "k8s-clone-snapshot-" + req.name in SnapsIn(after, t.addr, SourceOf(t, req))
  {
    var c := CloneFor(t, req);
    CloneForRequest(conf, fleet, t, req, zone, m);
    CloneMakes(conf, fleet, t, req, m);
    CloneContentIff(c, conf, fleet, t, req.capacity, m);
    ContentAsMade(conf, fleet, t, req, zone, m);
    FirstAttempt(c, conf, fleet, t, m);
    CreateSnaps(conf, fleet, t, req, zone, m);
    var after := CreateOn(conf, fleet, t, req, zone, m).1;
    assert SnapsIn(after, c.addr, c.source) == SnapsIn(Between(conf, fleet, t, req, m), c.addr, c.source);
  }

  /** Clones of one source under different names are independent: the first holds what the
      source held when it was made, and after any harmless run that ends with a write to the
      source, a clone under another name, whose own snapshot is not there yet, holds what was
      written, while the first keeps what it has. */
  lemma ClonesIndependent(conf: NodeMap, fleet: Fleet, t: Target, first: CreateRequest, zone: string, m: Moment,
                          ops: seq<Op>, written: string,
                          u: Target, second: CreateRequest, zone': string, m': Moment)
    requires IsClone(first) && IsClone(second) && first.name != second.name
    requires u.addr == t.addr && SourceOf(u, second) == SourceOf(t, first) && '@' !in SourceOf(t, first)
    requires SourceOf(t, first) != PathOf(t, first) && SourceOf(t, first) != PathOf(u, second)
    requires Hosts(fleet, t.addr, SourceOf(t, first)) && !Hosts(fleet, t.addr, PathOf(t, first))
    requires "k8s-clone-snapshot-" + first.name !in SnapsIn(fleet, t.addr, SourceOf(t, first))
    requires CreateOn(conf, fleet, t, first, zone, m).0.Ok?
    requires forall i :: 0 <= i < |ops| ==> Harmless(CloneFor(t, first), ops[i])
    requires var reached := WriteTo(Run(conf, CreateOn(conf, fleet, t, first, zone, m).1, ops),
                                    t.addr, SourceOf(t, first), written);
             && "k8s-clone-snapshot-" + second.name !in SnapsIn(reached, t.addr, SourceOf(t, first))
             && !Hosts(reached, t.addr, PathOf(u, second))
             && CreateOn(conf, reached, u, second, zone', m').0.Ok?
    ensures var source, was := SourceOf(t, first), fleet[t.addr].datasets[SourceOf(t, first)].content;
            var made := CreateOn(conf, fleet, t, first, zone, m).1;
            var reached := WriteTo(Run(conf, made, ops), t.addr, source, written);
            var after := CreateOn(conf, reached, u, second, zone', m').1;
            && Hosts(made, t.addr, PathOf(t, first)) && made[t.addr].datasets[PathOf(t, first)].content == was
            && Hosts(after, t.addr, PathOf(u, second)) && after[t.addr].datasets[PathOf(u, second)].content == written
            && (Hosts(reached, t.addr, PathOf(t, first)) ==>
                  && Hosts(after, t.addr, PathOf(t, first))
                  && after[t.addr].datasets[PathOf(t, first)].content == was)
  {
    var c, was := CloneFor(t, first), fleet[t.addr].datasets[SourceOf(t, first)].content;
    FirstClone(conf, fleet, t, first, zone, m);
    CloneForRequest(conf, fleet, t, first, zone, m);
    var made := CreateOn(conf, fleet, t, first, zone, m).1;
    RunKeepsImage(c, conf, made, ops, was);
    var before := Run(conf, made, ops);
    StepKeepsImage(c, conf, before, Write(t, c.source, written), was);
    var reached := WriteTo(before, t.addr, c.source, written);
    FirstClone(conf, reached, u, second, zone', m');
    CreateKeepsData(conf, reached, u, second, zone', m');
  }

  /** A request for a volume from the snapshot "entry:path@name" needs that snapshot; a new
      volume holds what its dataset holds at the time, and an existing one keeps its content. */
  lemma RequestRestore(conf: NodeMap, fleet: Fleet, t: Target, req: CreateRequest, zone: string, m: Moment,
                       entry: string, path: string, name: string)
    requires req.source == Some(FromSnapshot(entry + ":" + path + "@" + name))
    requires '@' !in path && '@' !in name && ':' !in entry && ':' !in path && ':' !in name
    requires CreateOn(conf, fleet, t, req, zone, m).0.Ok?
    ensures Hosts(fleet, t.addr, path) && name in fleet[t.addr].datasets[path].snaps
    ensures var after := CreateOn(conf, fleet, t, req, zone, m).1;
            var kept := if Hosts(fleet, t.addr, PathOf(t, req)) then PathOf(t, req) else path;
            && Hosts(after, t.addr, PathOf(t, req))
            && after[t.addr].datasets[PathOf(t, req)].content == fleet[t.addr].datasets[kept].content
  {
    RestoreIdParts(entry, path, name);
    RestoreMakes(conf, fleet, t, req, m);
    RestorePlain(fleet, t.addr, SnapPath(path, name), PathOf(t, req), req.capacity);
    SnapPathParts(fleet, t.addr, path, name);
    RestoredContent(fleet, t.addr, path, name, PathOf(t, req), req.capacity);
    ContentAsMade(conf, fleet, t, req, zone, m);
  }

  lemma RestoreIdParts(entry: string, path: string, name: string)
    requires ':' !in entry && ':' !in path && ':' !in name
    ensures var id := entry + ":" + path + "@" + name;
            id != "" && ParseVolumeID(id) == Ok(VolumeInfo(entry, SnapPath(path, name)))
  {
    var rest := SnapPath(path, name);
    assert entry + ":" + path + "@" + name == entry + [':'] + rest;
    assert ':' !in rest by {
      forall k | 0 <= k < |rest| ensures rest[k] != ':' {
        if k < |path| {
          assert rest[k] == path[k];
        } else if k > |path| {
          assert rest[k] == name[k - |path| - 1];
        }
      }
    }
    SplitCons(entry, ':', rest);
    SplitNone(rest, ':');
  }
}
