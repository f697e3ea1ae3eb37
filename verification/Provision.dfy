/** What the provisioning calls reply and leave behind, once a target is resolved. */
module Provision {
  import opened Text
  import opened Status
  import opened Storage
  import opened Configuration
  import opened Resolution
  import opened Identifiers

  /* ---------------------------------------------------------------- requests and replies */

  datatype ContentSource = FromSnapshot(id: string) | FromVolume(id: string) | OtherSource

  datatype Capabilities = NotGiven | Unsupported | Supported

  datatype Topology = Topology(segments: map<string, string>)

  datatype TopologyRequirement = TopologyRequirement(preferred: seq<Topology>, requisite: seq<Topology>)

  datatype CreateRequest = CreateRequest(name: string, capabilities: Capabilities, source: Option<ContentSource>,
                                         dataset: string, configName: string, topology: Option<TopologyRequirement>,
                                         capacity: int, mountPointPermissions: Option<string>,
                                         nfsAccessList: Option<string>,
                                         dataIp: string, mountOptions: string, mountFsType: string)

  /** What the node side is told about a volume. */
  datatype VolumeContext = VolumeContext(dataIp: string, mountOptions: string, mountFsType: string,
                                         mountPointPermissions: string)

  datatype Volume = Volume(id: string, capacity: int, source: Option<ContentSource>, context: VolumeContext,
                           topology: Option<string>)

  datatype CsiSnapshot = CsiSnapshot(id: string, sourceVolumeId: string, creationTime: int)

  /** Who asks the appliance for a snapshot, and when. */
  datatype Moment = Moment(user: string, now: int)

  /** No source, or one without an id. */
  predicate IsBlank(req: CreateRequest) {
    req.source.None? || (!req.source.value.OtherSource? && req.source.value.id == "")
  }

  /** The source is a volume id that can be parsed. */
  predicate IsClone(req: CreateRequest) {
    req.source.Some? && req.source.value.FromVolume? && req.source.value.id != ""
    && ParseVolumeID(req.source.value.id).Ok?
  }

  /** The dataset a volume id names; a bare name lies below the resolved dataset. */
  function SourceDataset(datasetPath: string, path: string): string {
    if '/' !in path then JoinPath(datasetPath, path) else path
  }

  function SourceOf(t: Target, req: CreateRequest): string
    requires IsClone(req)
  {
    SourceDataset(t.datasetPath, ParseVolumeID(req.source.value.id).value.Path)
  }

  function PathOf(t: Target, req: CreateRequest): string { JoinPath(t.datasetPath, req.name) }

  /** The resolution a volume id asks for. */
  function VolumeParams(info: VolumeInfo): Params { Params(info.Path, "", info.ConfigName) }

  /** Every node a request by this id may be led to is this one. */
  ghost predicate LeadsTo(conf: NodeMap, index: ResolverMap, fleet: Fleet, info: VolumeInfo, addr: string) {
    forall u :: Answers(conf, index, fleet, VolumeParams(info), Found(u)) ==> u.addr == addr
  }

  /** A snapshot id whose volume part can be parsed. */
  predicate SnapTargeted(snapshotId: string) {
    SplitSnapshotId(snapshotId).Some? && ParseVolumeID(SplitSnapshotId(snapshotId).value.0).Ok?
  }

  function SnapIdParams(snapshotId: string): Params
    requires SnapTargeted(snapshotId)
  {
    VolumeParams(ParseVolumeID(SplitSnapshotId(snapshotId).value.0).value)
  }

  const TopologyKeyZone := "topology.kubernetes.io/zone"

  /* ---------------------------------------------------------------- snapshots */

  /** Another dataset below the default one, among those the driver lists, has a
      snapshot of this name. */
  predicate NameTaken(node: Node, top: string, volumePath: string, snapName: string) {
    exists p | p in node.datasets ::
      Usable(p) && Under(p, top) && p != volumePath && snapName in node.datasets[p].snaps
  }

  function SnapshotVolume(conf: NodeMap, fleet: Fleet, t: Target, volumePath: string, snapName: string, m: Moment)
    : (Result<Snapshot>, Fleet)
  {
    if GetDataset(fleet, t.addr, volumePath).Failed? then (Err(NotFound), fleet)
    else
      match GetSnapshot(fleet, t.addr, SnapPath(volumePath, snapName))
      case Done(snap) => (Ok(snap), fleet)
      case Failed(_) =>
        if t.configName in conf
           && NameTaken(fleet[t.addr], conf[t.configName].DefaultDataset, volumePath, snapName)
        then (Err(AlreadyExists), fleet)
        else
          match CreateSnapshot(fleet, t.addr, volumePath, snapName, m.user, m.now)
          case (Failed(_), _) => (Err(Internal), fleet)
          case (Done(snap), after) => (Ok(snap), after)
  }

  /* ---------------------------------------------------------------- volumes */

  /** A blank volume; an existing one will do if it is big enough. */
  function BlankVolume(fleet: Fleet, addr: string, volumePath: string, capacity: int): (Result<()>, Fleet) {
    match CreateDataset(fleet, addr, volumePath, capacity)
    case (Done(_), after) => (Ok(()), after)
    case (Failed(Exists), _) =>
      (match GetDataset(fleet, addr, volumePath)
       case Failed(_) => Err(Internal)
       case Done(ds) => if capacity != 0 && ds.GetRefQuotaSize() < capacity then Err(AlreadyExists) else Ok(()),
       fleet)
    case (Failed(_), _) => (Err(Internal), fleet)
  }

  /** A volume from a snapshot: what is cloned is the path the lookup reports, and that
      is the path of the dataset. */
  function VolumeFromSnapshot(fleet: Fleet, addr: string, snapName: string, volumePath: string, capacity: int)
    : (Result<()>, Fleet)
  {
    match GetSnapshot(fleet, addr, snapName)
    case Failed(_) => (Err(NotFound), fleet)
    case Done(snapshot) =>
      match CloneSnapshot(fleet, addr, snapshot.Path, volumePath, capacity)
      case (Done(_), after) => (Ok(()), after)
      case (Failed(Exists), _) => (Ok(()), fleet)
      case (Failed(_), _) => (Err(Internal), fleet)
  }

  function CloneSnapName(volumeName: string): string { "k8s-clone-snapshot-" + volumeName }

  /** The second half of cloning a volume, after its snapshot is there. */
  function CloneFromSnap(fleet: Fleet, addr: string, snapPath: string, volumePath: string, capacity: int)
    : (Result<()>, Fleet)
  {
    match CloneSnapshot(fleet, addr, snapPath, volumePath, capacity)
    case (Done(_), after) => (Ok(()), after)
    case (Failed(Exists), _) => (Ok(()), fleet)
    case (Failed(_), _) => (Err(NotFound), fleet)
  }

  /** A volume with the content of another one. */
  function ClonedVolume(conf: NodeMap, fleet: Fleet, t: Target, source: string, volumePath: string, volumeName: string,
                        capacity: int, m: Moment): (Result<()>, Fleet)
  {
    var (snap, after) := SnapshotVolume(conf, fleet, t, source, CloneSnapName(volumeName), m);
    match snap
    case Err(code) => (Err(code), after)
    case Ok(_) => CloneFromSnap(after, t.addr, SnapPath(source, CloneSnapName(volumeName)), volumePath, capacity)
  }

  /** Which resolution a create request asks for. */
  ghost function CreateParams(conf: NodeMap, req: CreateRequest, zone: string): Result<Params> {
    var params := Params(req.dataset, zone, req.configName);
    match req.source
    case Some(OtherSource) => Err(InvalidArgument)
    case Some(FromSnapshot(id)) =>
      if id == "" then BlankParams(conf, params)
      else (match ParseVolumeID(id)
            case Err(_) => Err(NotFound)
            case Ok(info) => Ok(params.(configName := info.ConfigName)))
    case Some(FromVolume(id)) =>
      if id == "" then BlankParams(conf, params)
      else (match ParseVolumeID(id)
            case Err(_) => Err(NotFound)
            case Ok(info) => Ok(params.(configName := info.ConfigName)))
    case None => BlankParams(conf, params)
  }

  /** Without dataset and entry the first entry is asked for. */
  ghost function BlankParams(conf: NodeMap, params: Params): Result<Params> {
    if params.datasetPath == "" && params.configName == "" then
      var nodes := Sorted(conf.Keys);
      if nodes == [] then Err(NotFound) else Ok(params.(configName := nodes[0]))
    else Ok(params)
  }

  /** The volume itself. */
  function MakeVolume(conf: NodeMap, fleet: Fleet, t: Target, req: CreateRequest, m: Moment): (Result<()>, Fleet) {
    var volumePath := JoinPath(t.datasetPath, req.name);
    var info := if req.source.Some? && !req.source.value.OtherSource? && req.source.value.id != "" then
                  ParseVolumeID(req.source.value.id) else Err(NotFound);
    match info
    case Ok(i) =>
      if req.source.value.FromSnapshot? then VolumeFromSnapshot(fleet, t.addr, i.Path, volumePath, req.capacity)
      else ClonedVolume(conf, fleet, t, SourceDataset(t.datasetPath, i.Path), volumePath, req.name, req.capacity, m)
    case Err(_) => BlankVolume(fleet, t.addr, volumePath, req.capacity)
  }

  /** The reply for a volume that is there. */
  function VolumeReply(conf: NodeMap, t: Target, req: CreateRequest, zone: string): Volume
    requires t.configName in conf
  {
    var permissions := if req.mountPointPermissions.Some? then req.mountPointPermissions.value
                       else conf[t.configName].MountPointPermissions;
    Volume(VolumeId(t.configName, JoinPath(t.datasetPath, req.name)), req.capacity, req.source,
           VolumeContext(req.dataIp, req.mountOptions, req.mountFsType, permissions),
           if zone != "" then Some(zone) else None)
  }

  /** A create request on its resolved target. */
  function CreateOn(conf: NodeMap, fleet: Fleet, t: Target, req: CreateRequest, zone: string, m: Moment)
    : (Result<Volume>, Fleet)
  {
    var (made, after) := MakeVolume(conf, fleet, t, req, m);
    match made
    case Err(code) => (Err(code), after)
    case Ok(_) =>
      if t.configName !in conf then (Err(NotFound), after)
      else
        var reply := VolumeReply(conf, t, req, zone);
        match req.nfsAccessList
        case None => (Ok(reply), after)
        case Some(list) =>
          match CreateNfsShare(after, t.addr, JoinPath(t.datasetPath, req.name), list)
          case (Failed(_), _) => (Err(Unknown), after)
          case (Done(_), shared) => (Ok(reply), shared)
  }

  /** Deleting a volume on its resolved target. */
  function DeleteOn(fleet: Fleet, t: Target, path: string): (Result<()>, Fleet) {
    match DestroyDataset(fleet, t.addr, path)
    case (Done(_), after) => (Ok(()), after)
    case (Failed(NotExist), _) => (Ok(()), fleet)
    case (Failed(_), _) => (Err(Internal), fleet)
  }

  /** Giving a volume a new quota. */
  function ExpandOn(fleet: Fleet, t: Target, path: string, capacity: int): (Result<int>, Fleet) {
    match UpdateDataset(fleet, t.addr, path, capacity)
    case (Done(_), after) => (Ok(capacity), after)
    case (Failed(_), _) => (Err(Unknown), fleet)
  }

  /** Taking a named snapshot of a volume. */
  function SnapshotOn(conf: NodeMap, fleet: Fleet, t: Target, sourceId: string, path: string, name: string, m: Moment)
    : (Result<CsiSnapshot>, Fleet)
  {
    var (snap, after) := SnapshotVolume(conf, fleet, t, path, name, m);
    match snap
    case Err(code) => (Err(code), after)
    case Ok(s) => (Ok(CsiSnapshot(SnapshotId(t.configName, path, name), sourceId, s.CreationTime)), after)
  }

  /** Deleting a snapshot on its resolved target. */
  function DeleteSnapshotOn(fleet: Fleet, t: Target, path: string, name: string): (Result<()>, Fleet) {
    match DestroySnapshot(fleet, t.addr, SnapPath(path, name))
    case (Done(_), after) => (Ok(()), after)
    case (Failed(NotExist), _) => (Ok(()), fleet)
    case (Failed(_), _) => (Err(Internal), fleet)
  }

  /* ---------------------------------------------------------------- whole calls */

  /** What a call comes to when its target was, or was not, resolved. */
  function CreateReply(conf: NodeMap, fleet: Fleet, at: Resolved, req: CreateRequest, zone: string, m: Moment)
    : (Result<Volume>, Fleet)
  {
    match at
    case Unresolved(e) => (Err(ErrorCode(e)), fleet)
    case Found(t) => CreateOn(conf, fleet, t, req, zone, m)
  }

  function TakeSnapshotReply(conf: NodeMap, fleet: Fleet, at: Resolved, sourceId: string, path: string, name: string,
                             m: Moment)
    : (Result<CsiSnapshot>, Fleet)
  {
    match at
    case Unresolved(e) => (Err(ErrorCode(e)), fleet)
    case Found(t) => SnapshotOn(conf, fleet, t, sourceId, path, name, m)
  }

  function DropSnapshotReply(fleet: Fleet, at: Resolved, path: string, name: string): (Result<()>, Fleet) {
    match at
    case Unresolved(e) => (if ErrorCode(e) == NotFound then Ok(()) else Err(ErrorCode(e)), fleet)
    case Found(t) => DeleteSnapshotOn(fleet, t, path, name)
  }

  function DeleteReply(fleet: Fleet, at: Resolved, path: string): (Result<()>, Fleet) {
    match at
    case Unresolved(e) => (if MentionsNotFound(e) then Ok(()) else Err(ErrorCode(e)), fleet)
    case Found(t) => DeleteOn(fleet, t, path)
  }

  /** A delete by id; one that cannot be parsed counts as deleted. */
  function DeleteIdReply(fleet: Fleet, volumeId: string, at: Resolved): (Result<()>, Fleet) {
    if volumeId == "" then (Err(InvalidArgument), fleet)
    else
      match ParseVolumeID(volumeId)
      case Err(_) => (Ok(()), fleet)
      case Ok(info) => DeleteReply(fleet, at, info.Path)
  }

  function ConvertSnap(snap: Snapshot, configName: string): CsiSnapshot {
    CsiSnapshot(SnapshotId(configName, snap.Path, snap.Name), VolumeId(configName, snap.Path), snap.CreationTime)
  }

  /** The listing of one snapshot. */
  function SingleReply(fleet: Fleet, at: Resolved, path: string, name: string): Result<seq<CsiSnapshot>> {
    match at
    case Unresolved(e) => if ErrorCode(e) == NotFound then Ok([]) else Err(ErrorCode(e))
    case Found(t) =>
      match GetSnapshot(fleet, t.addr, SnapPath(path, name))
      case Done(snap) => Ok([ConvertSnap(snap, t.configName)])
      case Failed(e) => if e == NotExist then Ok([]) else Err(Internal)
  }
}
