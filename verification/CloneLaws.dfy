/** Cloned volumes are point-in-time images: retries, interruptions and later writes
    never give a clone later content. */
module CloneLaws {
  import opened Text
  import opened Status
  import opened Storage
  import opened Configuration
  import opened Resolution
  import opened Identifiers
  import opened Provision
  import opened Runs

  /** A clone request: source and target dataset on one appliance. */
  datatype Clone = Clone(addr: string, source: string, volumeName: string, target: string)

  function SnapName(c: Clone): string { CloneSnapName(c.volumeName) }

  predicate Proper(c: Clone) {
    c.source != c.target && '@' !in c.source && '@' !in c.volumeName && c.source != ""
  }

  /** The clone's snapshot is there with this content. */
  predicate Imaged(c: Clone, fleet: Fleet, content: string) {
    && Hosts(fleet, c.addr, c.source)
    && SnapName(c) in fleet[c.addr].datasets[c.source].snaps
    && fleet[c.addr].datasets[c.source].snaps[SnapName(c)].content == content
  }

  /** And the target, where it exists, has that content. */
  predicate Faithful(c: Clone, fleet: Fleet, content: string) {
    Imaged(c, fleet, content)
    && (Hosts(fleet, c.addr, c.target) ==> fleet[c.addr].datasets[c.target].content == content)
  }

  /** A create request that clones this source under this name. */
  predicate IsCloneOf(c: Clone, t: Target, req: CreateRequest) {
    && t.addr == c.addr && JoinPath(t.datasetPath, req.name) == c.target && req.name == c.volumeName
    && req.source.Some? && req.source.value.FromVolume? && req.source.value.id != ""
    && ParseVolumeID(req.source.value.id).Ok?
    && SourceDataset(t.datasetPath, ParseVolumeID(req.source.value.id).value.Path) == c.source
  }

  /** Calls that do not themselves remove the image, write to the target, or make the
      target from something else. Everything else may happen: further attempts at the
      clone, complete or cut off, writes to the source, deleting the target, all calls
      for other volumes. */
  predicate Harmless(c: Clone, op: Op) {
    op.t.addr != c.addr ||
    match op
    case Create(t, req, _, _) => JoinPath(t.datasetPath, req.name) == c.target ==> IsCloneOf(c, t, req)
    case CutClone(_, _, _, _) => true
    case TakeSnapshot(_, _, _, _, _) => true
    case DropSnapshot(_, path, name) => path == c.source ==> name != SnapName(c)
    case Delete(_, path) => path != c.source
    case Expand(_, _, _) => true
    case Write(_, path, _) => path != c.target
  }

  lemma NameHasNoAt(c: Clone)
    requires Proper(c)
    ensures '@' !in SnapName(c)
  {
  }

  /* ---------------------------------------------------------------- one attempt */

  lemma ImageIsFound(c: Clone, fleet: Fleet, content: string)
    requires Proper(c) && Imaged(c, fleet, content)
    ensures SnapshotAt(fleet, c.addr, SnapPath(c.source, SnapName(c))) == Some((c.source, SnapName(c)))
  {
    NameHasNoAt(c);
    SnapPathParts(fleet, c.addr, c.source, SnapName(c));
  }

  /** With the image there, another attempt at the snapshot changes nothing. */
  lemma SnapshotAgain(c: Clone, conf: NodeMap, fleet: Fleet, t: Target, content: string, m: Moment)
    requires Proper(c) && Imaged(c, fleet, content) && t.addr == c.addr
    ensures SnapshotVolume(conf, fleet, t, c.source, SnapName(c), m).0.Ok?
    ensures SnapshotVolume(conf, fleet, t, c.source, SnapName(c), m).1 == fleet
  {
    ImageIsFound(c, fleet, content);
  }

  /** And cloning gives the target the image's content, unless it is there already. */
  lemma CloneOfImage(c: Clone, fleet: Fleet, content: string, capacity: int)
    requires Proper(c) && Imaged(c, fleet, content)
    ensures var (r, after) := CloneFromSnap(fleet, c.addr, SnapPath(c.source, SnapName(c)), c.target, capacity);
            && Imaged(c, after, content)
            && (r.Ok? ==> Hosts(after, c.addr, c.target))
            && (Hosts(fleet, c.addr, c.target) ==> '@' !in c.target && c.target != "" ==> after == fleet && r.Ok?)
            && (!Hosts(fleet, c.addr, c.target) && Hosts(after, c.addr, c.target) ==>
                  after[c.addr].datasets[c.target].content == content)
            && (Faithful(c, fleet, content) ==> Faithful(c, after, content))
  {
    ImageIsFound(c, fleet, content);
  }

  /* ---------------------------------------------------------------- runs */

  /** A snapshot taken anywhere leaves images and contents alone. */
  lemma SnapshotKeeps(c: Clone, conf: NodeMap, fleet: Fleet, t: Target, path: string, name: string, m: Moment,
                      content: string)
    requires Faithful(c, fleet, content)
    ensures Faithful(c, SnapshotVolume(conf, fleet, t, path, name, m).1, content)
  {
  }

  lemma DropKeeps(c: Clone, fleet: Fleet, t: Target, path: string, name: string, content: string)
    requires Faithful(c, fleet, content) && (t.addr == c.addr && path == c.source ==> name != SnapName(c))
    ensures Faithful(c, DeleteSnapshotOn(fleet, t, path, name).1, content)
  {
    SnapPathParts(fleet, t.addr, path, name);
  }

  /** Making another dataset leaves images and contents alone. */
  lemma OtherTargetKeeps(c: Clone, fleet: Fleet, addr: string, src: string, target: string, quota: int, content: string)
    requires Faithful(c, fleet, content) && (addr == c.addr ==> target != c.target)
    ensures Faithful(c, CloneSnapshot(fleet, addr, src, target, quota).1, content)
    ensures Faithful(c, CreateDataset(fleet, addr, target, quota).1, content)
  {
  }

  lemma ShareKeeps(c: Clone, fleet: Fleet, addr: string, path: string, nfsArgs: string, content: string)
    requires Faithful(c, fleet, content)
    ensures Faithful(c, CreateNfsShare(fleet, addr, path, nfsArgs).1, content)
  {
  }

  lemma BlankKeeps(c: Clone, fleet: Fleet, addr: string, target: string, quota: int, content: string)
    requires Faithful(c, fleet, content) && (addr == c.addr ==> target != c.target)
    ensures Faithful(c, BlankVolume(fleet, addr, target, quota).1, content)
  {
    OtherTargetKeeps(c, fleet, addr, "", target, quota, content);
  }

  lemma RestoreKeeps(c: Clone, fleet: Fleet, addr: string, snapName: string, target: string, quota: int,
                     content: string)
    requires Faithful(c, fleet, content) && (addr == c.addr ==> target != c.target)
    ensures Faithful(c, VolumeFromSnapshot(fleet, addr, snapName, target, quota).1, content)
  {
    match GetSnapshot(fleet, addr, snapName) {
      case Failed(_) =>
      case Done(s) => OtherTargetKeeps(c, fleet, addr, s.Path, target, quota, content);
    }
  }

  lemma OtherCloneKeeps(c: Clone, conf: NodeMap, fleet: Fleet, t: Target, source: string, target: string,
                        volumeName: string, quota: int, m: Moment, content: string)
    requires Faithful(c, fleet, content) && (t.addr == c.addr ==> target != c.target)
    ensures Faithful(c, ClonedVolume(conf, fleet, t, source, target, volumeName, quota, m).1, content)
  {
    SnapshotKeeps(c, conf, fleet, t, source, CloneSnapName(volumeName), m, content);
    var mid := SnapshotVolume(conf, fleet, t, source, CloneSnapName(volumeName), m).1;
    OtherTargetKeeps(c, mid, t.addr, SnapPath(source, CloneSnapName(volumeName)), target, quota, content);
  }

  lemma RetryKeeps(c: Clone, conf: NodeMap, fleet: Fleet, t: Target, quota: int, m: Moment, content: string)
    requires Proper(c) && Faithful(c, fleet, content) && t.addr == c.addr
    ensures Faithful(c, ClonedVolume(conf, fleet, t, c.source, c.target, c.volumeName, quota, m).1, content)
  {
    SnapshotAgain(c, conf, fleet, t, content, m);
    CloneOfImage(c, fleet, content, quota);
  }

  lemma MakeKeeps(c: Clone, conf: NodeMap, fleet: Fleet, t: Target, req: CreateRequest, m: Moment, content: string)
    requires Proper(c) && Faithful(c, fleet, content)
    requires t.addr == c.addr && JoinPath(t.datasetPath, req.name) == c.target ==> IsCloneOf(c, t, req)
    ensures Faithful(c, MakeVolume(conf, fleet, t, req, m).1, content)
  {
    var volumePath := JoinPath(t.datasetPath, req.name);
    if t.addr == c.addr && volumePath == c.target {
      RetryKeeps(c, conf, fleet, t, req.capacity, m, content);
    } else if req.source.Some? && !req.source.value.OtherSource? && req.source.value.id != ""
              && ParseVolumeID(req.source.value.id).Ok? {
      var info := ParseVolumeID(req.source.value.id).value;
      RestoreKeeps(c, fleet, t.addr, info.Path, volumePath, req.capacity, content);
      OtherCloneKeeps(c, conf, fleet, t, SourceDataset(t.datasetPath, info.Path), volumePath, req.name, req.capacity,
          m, content);
    } else {
      BlankKeeps(c, fleet, t.addr, volumePath, req.capacity, content);
    }
  }

  lemma StepKeepsImage(c: Clone, conf: NodeMap, fleet: Fleet, op: Op, content: string)
    requires Proper(c) && Faithful(c, fleet, content) && Harmless(c, op)
    ensures Faithful(c, Step(conf, fleet, op), content)
  {
    match op
    case Create(t, req, zone, m) =>
      MakeKeeps(c, conf, fleet, t, req, m, content);
      var made := MakeVolume(conf, fleet, t, req, m).1;
      if req.nfsAccessList.Some? {
        ShareKeeps(c, made, t.addr, JoinPath(t.datasetPath, req.name), req.nfsAccessList.value, content);
      }
    case CutClone(t, req, _, m) =>
      if IsClone(req) {
        SnapshotKeeps(c, conf, fleet, t, SourceOf(t, req), CloneSnapName(req.name), m, content);
      }
    case TakeSnapshot(t, _, path, name, m) =>
      SnapshotKeeps(c, conf, fleet, t, path, name, m, content);
    case DropSnapshot(t, path, name) =>
      DropKeeps(c, fleet, t, path, name, content);
    case _ =>
  }

  lemma {:induction false} RunKeepsImage(c: Clone, conf: NodeMap, fleet: Fleet, ops: seq<Op>, content: string)
    requires Proper(c) && Faithful(c, fleet, content)
    requires forall i :: 0 <= i < |ops| ==> Harmless(c, ops[i])
    ensures Faithful(c, Run(conf, fleet, ops), content)
    decreases |ops|
  {
    if ops != [] {
      StepKeepsImage(c, conf, fleet, ops[0], content);
      RunKeepsImage(c, conf, Step(conf, fleet, ops[0]), ops[1..], content);
    }
  }

  /** The first attempt, even one that is cut off after the snapshot, fixes the image to
      the source's content at that step, or changes nothing. */
  lemma FirstAttempt(c: Clone, conf: NodeMap, fleet: Fleet, t: Target, m: Moment)
    requires Proper(c) && t.addr == c.addr && Hosts(fleet, c.addr, c.source)
    requires SnapName(c) !in fleet[c.addr].datasets[c.source].snaps
    ensures var (r, after) := SnapshotVolume(conf, fleet, t, c.source, SnapName(c), m);
            if r.Ok? then Imaged(c, after, fleet[c.addr].datasets[c.source].content)
                          && (Hosts(after, c.addr, c.target) <==> Hosts(fleet, c.addr, c.target))
                          && (Hosts(fleet, c.addr, c.target) ==>
                                after[c.addr].datasets[c.target] == fleet[c.addr].datasets[c.target])
            else after == fleet
  {
    SnapPathParts(fleet, c.addr, c.source, SnapName(c));
  }

  /** Point in time: after the attempt that takes the snapshot, cut off or not, and any
      run of harmless calls, the target has no other content than the source had when
      the snapshot was taken, and a clone request that then succeeds leaves it with
      exactly that content. */
  lemma ClonePointInTime(c: Clone, conf: NodeMap, fleet: Fleet, t: Target, m: Moment, ops: seq<Op>,
                         again: Target, capacity: int, later: Moment)
    requires Proper(c) && t.addr == c.addr && again.addr == c.addr && Hosts(fleet, c.addr, c.source)
    requires SnapName(c) !in fleet[c.addr].datasets[c.source].snaps && !Hosts(fleet, c.addr, c.target)
    requires SnapshotVolume(conf, fleet, t, c.source, SnapName(c), m).0.Ok?
    requires forall i :: 0 <= i < |ops| ==> Harmless(c, ops[i])
    ensures var content := fleet[c.addr].datasets[c.source].content;
            var reached := Run(conf, SnapshotVolume(conf, fleet, t, c.source, SnapName(c), m).1, ops);
            var (r, after) := ClonedVolume(conf, reached, again, c.source, c.target, c.volumeName, capacity, later);
            && Faithful(c, reached, content) && Faithful(c, after, content)
            && (r.Ok? ==> Hosts(after, c.addr, c.target) && after[c.addr].datasets[c.target].content == content)
  {
    var content := fleet[c.addr].datasets[c.source].content;
    FirstAttempt(c, conf, fleet, t, m);
    var imaged := SnapshotVolume(conf, fleet, t, c.source, SnapName(c), m).1;
    RunKeepsImage(c, conf, imaged, ops, content);
    var reached := Run(conf, imaged, ops);
    SnapshotAgain(c, conf, reached, again, content, later);
    CloneOfImage(c, reached, content, capacity);
  }

  /** A successful clone has the source's content exactly when an existing target has it, or
      else an existing snapshot of that name, or else neither exists: both are kept and used
      as they are, and the request reports success. */
  lemma CloneContentIff(c: Clone, conf: NodeMap, fleet: Fleet, t: Target, capacity: int, m: Moment)
    requires Proper(c) && t.addr == c.addr && Hosts(fleet, c.addr, c.source)
    requires ClonedVolume(conf, fleet, t, c.source, c.target, c.volumeName, capacity, m).0.Ok?
    ensures var after := ClonedVolume(conf, fleet, t, c.source, c.target, c.volumeName, capacity, m).1;
            var source := fleet[c.addr].datasets[c.source];
            && Hosts(after, c.addr, c.target)
            && (Hosts(fleet, c.addr, c.target) ==>
                  after[c.addr].datasets[c.target] == fleet[c.addr].datasets[c.target])
            && (after[c.addr].datasets[c.target].content == source.content <==>
                  if Hosts(fleet, c.addr, c.target) then fleet[c.addr].datasets[c.target].content == source.content
                  else SnapName(c) in source.snaps ==> source.snaps[SnapName(c)].content == source.content)
  {
    var source := fleet[c.addr].datasets[c.source];
    if SnapName(c) in source.snaps {
      var content := source.snaps[SnapName(c)].content;
      SnapshotAgain(c, conf, fleet, t, content, m);
      CloneOfImage(c, fleet, content, capacity);
    } else {
      FirstAttempt(c, conf, fleet, t, m);
      var imaged := SnapshotVolume(conf, fleet, t, c.source, SnapName(c), m).1;
      CloneOfImage(c, imaged, source.content, capacity);
    }
  }

  /** For instance a source with new content and a target with old content. */
  function OldAndNew(c: Clone): Fleet {
    map[c.addr := Node(0, map[c.source := Dataset("new", 0, None, map[]), c.target := Dataset("old", 0, None, map[])])]
  }

  /** There the request succeeds and the old content stays. */
  lemma CloneOverExisting(c: Clone, t: Target, capacity: int, m: Moment)
    requires Proper(c) && t.addr == c.addr && c.target != "" && '@' !in c.target
    ensures var (r, after) := ClonedVolume(map[], OldAndNew(c), t, c.source, c.target, c.volumeName, capacity, m);
            r == Ok(()) && Hosts(after, c.addr, c.target) && after[c.addr].datasets[c.target].content == "old"
  {
    var fleet := OldAndNew(c);
    NameHasNoAt(c);
    FirstAttempt(c, map[], fleet, t, m);
    var (r, imaged) := SnapshotVolume(map[], fleet, t, c.source, SnapName(c), m);
    assert r.Ok?;
    CloneOfImage(c, imaged, "new", capacity);
  }

  /** A source with new content whose snapshot from an earlier request of the same name
      holds the old one; the earlier clone is gone. */
  function Leftover(c: Clone): Fleet {
    map[c.addr := Node(0, map[c.source := Dataset("new", 0, None, map[SnapName(c) := Snap("old", "", 0)])])]
  }

  /** There a new clone succeeds and gets the old content. */
  lemma CloneOfLeftover(c: Clone, t: Target, capacity: int, m: Moment)
    requires Proper(c) && t.addr == c.addr && c.target != "" && '@' !in c.target && PoolOf(c.source) == PoolOf(c.target)
    ensures var (r, after) := ClonedVolume(map[], Leftover(c), t, c.source, c.target, c.volumeName, capacity, m);
            r == Ok(()) && Hosts(after, c.addr, c.target) && after[c.addr].datasets[c.target].content == "old"
  {
    var fleet := Leftover(c);
    SnapshotAgain(c, map[], fleet, t, "old", m);
    ImageIsFound(c, fleet, "old");
    CloneOfImage(c, fleet, "old", capacity);
  }

  /** A volume made from a snapshot starts with the content its source has at that time,
      and an existing volume keeps its own, so it has the snapshot's content exactly when an
      existing volume has it or else the source still has it. */
  lemma RestoredContent(fleet: Fleet, addr: string, path: string, name: string, volumePath: string, capacity: int)
    requires '@' !in path && '@' !in name && Hosts(fleet, addr, path) && name in fleet[addr].datasets[path].snaps
    requires VolumeFromSnapshot(fleet, addr, SnapPath(path, name), volumePath, capacity).0.Ok?
    ensures var after := VolumeFromSnapshot(fleet, addr, SnapPath(path, name), volumePath, capacity).1;
            var kept := if Hosts(fleet, addr, volumePath) then volumePath else path;
            && Hosts(after, addr, volumePath)
            && (Hosts(fleet, addr, volumePath) ==> after == fleet)
            && after[addr].datasets[volumePath].content == fleet[addr].datasets[kept].content
            && (after[addr].datasets[volumePath].content == fleet[addr].datasets[path].snaps[name].content <==>
                  fleet[addr].datasets[kept].content == fleet[addr].datasets[path].snaps[name].content)
  {
    SnapPathParts(fleet, addr, path, name);
    SplitNone(path, '@');
  }
}
