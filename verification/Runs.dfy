/** Runs of provisioning calls, with users writing in between. */
module Runs {
  import opened Status
  import opened Storage
  import opened Configuration
  import opened Resolution
  import opened Identifiers
  import opened Provision

  datatype Op =
    | Create(t: Target, req: CreateRequest, zone: string, m: Moment)
    | CutClone(t: Target, req: CreateRequest, zone: string, m: Moment)  // a clone that stops after its snapshot
    | TakeSnapshot(t: Target, sourceId: string, path: string, name: string, m: Moment)
    | DropSnapshot(t: Target, path: string, name: string)
    | Delete(t: Target, path: string)
    | Expand(t: Target, path: string, capacity: int)
    | Write(t: Target, path: string, content: string)

  /** A user changes the content of a dataset. */
  function WriteTo(fleet: Fleet, addr: string, path: string, content: string): Fleet {
    if Hosts(fleet, addr, path) then Put(fleet, addr, path, fleet[addr].datasets[path].(content := content)) else fleet
  }

  function Step(conf: NodeMap, fleet: Fleet, op: Op): Fleet {
    match op
    case Create(t, req, zone, m) => CreateOn(conf, fleet, t, req, zone, m).1
    case CutClone(t, req, _, m) =>
      if IsClone(req) then SnapshotVolume(conf, fleet, t, SourceOf(t, req), CloneSnapName(req.name), m).1 else fleet
    case TakeSnapshot(t, sourceId, path, name, m) => SnapshotOn(conf, fleet, t, sourceId, path, name, m).1
    case DropSnapshot(t, path, name) => DeleteSnapshotOn(fleet, t, path, name).1
    case Delete(t, path) => DeleteOn(fleet, t, path).1
    case Expand(t, path, capacity) => ExpandOn(fleet, t, path, capacity).1
    case Write(t, path, content) => WriteTo(fleet, t.addr, path, content)
  }

  function Run(conf: NodeMap, fleet: Fleet, ops: seq<Op>): Fleet
    decreases |ops|
  {
    if ops == [] then fleet else Run(conf, Step(conf, fleet, ops[0]), ops[1..])
  }

  /* ---------------------------------------------------------------- runs of requests */

  /** A request as it comes in: what it asks to be resolved and its step on the target. */
  datatype Call = Call(p: Params, op: Op)

  /** The request behind the step asks for this resolution. */
  ghost predicate Asks(conf: NodeMap, p: Params, op: Op) {
    match op
    case Create(_, req, zone, _) => CreateParams(conf, req, zone) == Ok(p)
    case CutClone(_, req, zone, _) => CreateParams(conf, req, zone) == Ok(p)
    case TakeSnapshot(_, sourceId, path, name, _) =>
      name != "" && ParseVolumeID(sourceId) == Ok(VolumeInfo(p.configName, path))
      && p == VolumeParams(VolumeInfo(p.configName, path))
    case DropSnapshot(_, path, _) => p == VolumeParams(VolumeInfo(p.configName, path))
    case Delete(_, path) => p == VolumeParams(VolumeInfo(p.configName, path))
    case Expand(_, path, _) => p == VolumeParams(VolumeInfo(p.configName, path))
    case Write(_, _, _) => true
  }

  /** Every request works on a target that resolution may give for the store it meets;
      users write wherever they like. */
  ghost predicate Called(conf: NodeMap, index: ResolverMap, fleet: Fleet, calls: seq<Call>)
    decreases |calls|
  {
    calls == []
    || (&& Asks(conf, calls[0].p, calls[0].op)
        && (calls[0].op.Write? || Answers(conf, index, fleet, calls[0].p, Found(calls[0].op.t)))
        && Called(conf, index, Step(conf, fleet, calls[0].op), calls[1..]))
  }

  /** The store after a run of requests. */
  function After(conf: NodeMap, fleet: Fleet, calls: seq<Call>): Fleet
    decreases |calls|
  {
    if calls == [] then fleet else After(conf, Step(conf, fleet, calls[0].op), calls[1..])
  }
}
