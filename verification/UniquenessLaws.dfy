/** No two datasets below an entry's default dataset ever have snapshots of the same
    name: what keeps this, and exactly when. */
module UniquenessLaws {
  import opened Text
  import opened Status
  import opened Storage
  import opened Configuration
  import opened Resolution
  import opened Provision
  import opened Runs
  import opened RunLaws

  /** Snapshot names are unique below `top`. */
  ghost predicate Unique(node: Node, top: string) {
    forall p, q, name :: p in node.datasets && q in node.datasets && p != q && Under(p, top) && Under(q, top) ==>
      !(name in node.datasets[p].snaps && name in node.datasets[q].snaps)
  }

  /** No dataset has a snapshot name it did not have before. */
  ghost predicate NamesWithin(after: Fleet, before: Fleet) {
    after.Keys == before.Keys && forall a, p :: SnapsIn(after, a, p).Keys <= SnapsIn(before, a, p).Keys
  }

  lemma SameIsWithin(after: Fleet, before: Fleet)
    requires SnapsSame(after, before)
    ensures NamesWithin(after, before)
  {
    forall a, p ensures SnapsIn(after, a, p).Keys <= SnapsIn(before, a, p).Keys {
      assert SnapsIn(after, a, p) == SnapsIn(before, a, p);
    }
  }

  lemma UniqueWithin(after: Fleet, before: Fleet, addr: string, top: string)
    requires addr in before && Unique(before[addr], top) && NamesWithin(after, before)
    ensures Unique(after[addr], top)
  {
    var node, was := after[addr], before[addr];
    forall p, q, name | p in node.datasets && q in node.datasets && p != q && Under(p, top) && Under(q, top)
      ensures !(name in node.datasets[p].snaps && name in node.datasets[q].snaps)
    {
      assert SnapsIn(after, addr, p).Keys <= SnapsIn(before, addr, p).Keys;
      assert SnapsIn(after, addr, q).Keys <= SnapsIn(before, addr, q).Keys;
      assert !(p in was.datasets && q in was.datasets
               && name in was.datasets[p].snaps && name in was.datasets[q].snaps);
    }
  }

  /* ---------------------------------------------------------------- one snapshot */

  /** Everything below `top` is listed and lies below `scanned`. */
  predicate Covers(scanned: string, top: string) { Usable(top) && HasPrefix(top + "/", scanned + "/") }

  lemma CoveredPath(scanned: string, top: string, path: string)
    requires Covers(scanned, top) && Under(path, top)
    ensures Usable(path) && Under(path, scanned)
  {
    var name := path[|top| + 1..];
    assert path == top + "/" + name;
    UsableBelow(top, name);
    assert path[..|scanned| + 1] == (top + "/")[..|scanned| + 1];
  }

  lemma OneMoreName(before: Node, after: Node, scanned: string, top: string, path: string, name: string)
    requires Unique(before, top) && Covers(scanned, top) && !NameTaken(before, scanned, path, name)
    requires after.datasets.Keys == before.datasets.Keys && path in before.datasets
    requires forall p :: p in before.datasets && p != path ==> after.datasets[p] == before.datasets[p]
    requires after.datasets[path].snaps.Keys == before.datasets[path].snaps.Keys + {name}
    ensures Unique(after, top)
  {
    forall p, q, n | p in after.datasets && q in after.datasets && p != q && Under(p, top) && Under(q, top)
      ensures !(n in after.datasets[p].snaps && n in after.datasets[q].snaps)
    {
      CoveredPath(scanned, top, p);
      CoveredPath(scanned, top, q);
    }
  }

  /** No appliance has a dataset below a default dataset that is empty or starts with a slash. */
  lemma NothingBelow(fleet: Fleet, addr: string, top: string)
    requires WellNamed(fleet) && addr in fleet && !Rooted(top)
    ensures Unique(fleet[addr], top)
  {
    forall p | p in fleet[addr].datasets ensures !Under(p, top) {
      assert Hosts(fleet, addr, p) && Rooted(p);
    }
  }

  lemma SnapshotKeepsUnique(conf: NodeMap, fleet: Fleet, t: Target, path: string, name: string, m: Moment,
                            addr: string, top: string)
    requires addr in fleet && Unique(fleet[addr], top) && WellNamed(fleet)
    requires addr == t.addr && Rooted(top) ==> t.configName in conf && Covers(conf[t.configName].DefaultDataset, top)
    ensures var after := SnapshotVolume(conf, fleet, t, path, name, m).1;
            after.Keys == fleet.Keys && Unique(after[addr], top)
  {
    SnapshotEffect(conf, fleet, t, path, name, m);
    var after := SnapshotVolume(conf, fleet, t, path, name, m).1;
    if !Rooted(top) {
      NamesAfterSnapshot(conf, fleet, t, path, name, m);
      NothingBelow(after, addr, top);
    } else if after != fleet && addr == t.addr {
      OneMoreName(fleet[addr], after[addr], conf[t.configName].DefaultDataset, top, path, name);
    }
  }

  lemma NamesAfterSnapshot(conf: NodeMap, fleet: Fleet, t: Target, path: string, name: string, m: Moment)
    requires WellNamed(fleet)
    ensures var after := SnapshotVolume(conf, fleet, t, path, name, m).1;
            after.Keys == fleet.Keys && WellNamed(after)
  {
    SnapshotKeepsHosts(conf, fleet, t, path, name, m);
  }

  /** Snapshots taken through an entry keep the names below `top` unique. */
  ghost predicate SnapshotsSafe(conf: NodeMap, t: Target, top: string) {
    forall fleet: Fleet, path: string, name: string, m: Moment
      {:trigger SnapshotVolume(conf, fleet, t, path, name, m)} ::
      WellNamed(fleet) && t.addr in fleet && Unique(fleet[t.addr], top)
      && t.addr in SnapshotVolume(conf, fleet, t, path, name, m).1 ==>
        Unique(SnapshotVolume(conf, fleet, t, path, name, m).1[t.addr], top)
  }

  /** They do so exactly when everything below `top` is listed by the appliance and lies
      below the default dataset of the entry, or nothing can be below `top`. */
  lemma SnapshotsSafeIff(conf: NodeMap, t: Target, top: string)
    requires t.configName in conf
    ensures SnapshotsSafe(conf, t, top) <==> (Rooted(top) ==> Covers(conf[t.configName].DefaultDataset, top))
  {
    var scanned := conf[t.configName].DefaultDataset;
    if Rooted(top) && !Covers(scanned, top) {
      UnseenDuplicate(conf, t, top, "s", Moment("", 0));
      StartUnique(t.addr, top, top, "s");
    } else {
      forall fleet: Fleet, path: string, name: string, m: Moment
        | WellNamed(fleet) && t.addr in fleet && Unique(fleet[t.addr], top)
          && t.addr in SnapshotVolume(conf, fleet, t, path, name, m).1
        ensures Unique(SnapshotVolume(conf, fleet, t, path, name, m).1[t.addr], top)
      {
        SnapshotKeepsUnique(conf, fleet, t, path, name, m, t.addr, top);
      }
    }
  }

  /* ---------------------------------------------------------------- an unseen name */

  function Bare(snaps: map<string, Snap>): Dataset { Dataset("", 0, None, snaps) }

  /** A default dataset with two volumes, the first with a snapshot. */
  function TwoVolumes(addr: string, top: string, name: string): Fleet {
    map[addr := Node(0, map[
      top := Bare(map[]),
      top + "/x" := Bare(map[name := Snap("", "", 0)]),
      top + "/y" := Bare(map[])])]
  }

  lemma Apart(top: string)
    ensures top != top + "/x" && top != top + "/y" && top + "/x" != top + "/y"
    ensures Under(top + "/x", top) && Under(top + "/y", top)
  {
    assert (top + "/x")[|top| + 1] == 'x' && (top + "/y")[|top| + 1] == 'y';
    assert (top + "/x")[..|top| + 1] == top + "/" && (top + "/y")[..|top| + 1] == top + "/";
  }

  lemma StartUnique(addr: string, top: string, other: string, name: string)
    requires Rooted(top)
    ensures var fleet := TwoVolumes(addr, top, name); WellNamed(fleet) && Unique(fleet[addr], other)
  {
    Apart(top);
    assert (top + "/x")[0] == top[0] && (top + "/y")[0] == top[0];
  }

  lemma ChildPrefix(top: string, scanned: string)
    requires HasPrefix(top + "/x", scanned + "/")
    ensures HasPrefix(top + "/", scanned + "/")
  {
    var p := top + "/x";
    assert p[..|scanned| + 1][|scanned|] == '/';
    assert p[|p| - 1] == 'x';
    assert (top + "/")[..|scanned| + 1] == p[..|scanned| + 1];
  }

  lemma NotSeen(addr: string, top: string, name: string, scanned: string)
    requires !Covers(scanned, top)
    ensures !NameTaken(TwoVolumes(addr, top, name)[addr], scanned, top + "/y", name)
  {
    Apart(top);
    UsableBelow(top, "x");
    if Under(top + "/x", scanned) {
      ChildPrefix(top, scanned);
    }
  }

  /** When the scan cannot see the first volume, its snapshot's name is given again. */
  lemma UnseenDuplicate(conf: NodeMap, t: Target, top: string, name: string, m: Moment)
    requires t.configName in conf && !Covers(conf[t.configName].DefaultDataset, top)
    requires name != "" && '@' !in name
    ensures var (r, after) := SnapshotVolume(conf, TwoVolumes(t.addr, top, name), t, top + "/y", name, m);
            && r.Ok? && t.addr in after && Twice(after[t.addr], top, name) && !Unique(after[t.addr], top)
  {
    var fleet := TwoVolumes(t.addr, top, name);
    Apart(top);
    NotSeen(t.addr, top, name, conf[t.configName].DefaultDataset);
    NoSnapshotYet(t.addr, top, name);
    var after := SnapshotVolume(conf, fleet, t, top + "/y", name, m).1;
    TwiceIsNotUnique(after[t.addr], top, name);
  }

  lemma NoSnapshotYet(addr: string, top: string, name: string)
    ensures GetSnapshot(TwoVolumes(addr, top, name), addr, SnapPath(top + "/y", name)).Failed?
  {
    Apart(top);
    SnapPathParts(TwoVolumes(addr, top, name), addr, top + "/y", name);
  }

  /** Both volumes have a snapshot of the name. */
  predicate Twice(node: Node, top: string, name: string) {
    && top + "/x" in node.datasets && name in node.datasets[top + "/x"].snaps
    && top + "/y" in node.datasets && name in node.datasets[top + "/y"].snaps
  }

  lemma TwiceIsNotUnique(node: Node, top: string, name: string)
    requires Twice(node, top, name)
    ensures !Unique(node, top)
  {
    Apart(top);
  }

  /* ---------------------------------------------------------------- runs */

  /** Two entries have this address. */
  predicate Share(conf: NodeMap, m: string, n: string, addr: string) {
    m in conf && n in conf && addr in Split(conf[m].Address, ',') && addr in Split(conf[n].Address, ',')
  }

  /** Entries that share an address see each other's volumes, as far as there can be any. */
  ghost predicate Coherent(conf: NodeMap) {
    forall m, n, addr ::
      Share(conf, m, n, addr) && Rooted(conf[n].DefaultDataset) ==>
        Covers(conf[m].DefaultDataset, conf[n].DefaultDataset)
  }

  /** The call was resolved through an entry of the configuration, to one of its addresses,
      and to a dataset an appliance can have. */
  ghost predicate Resolves(conf: NodeMap, t: Target) {
    t.configName in conf && t.addr in Split(conf[t.configName].Address, ',') && Rooted(t.datasetPath)
  }

  /** Names are unique below every default dataset, on appliances with proper paths. */
  ghost predicate UniqueEverywhere(conf: NodeMap, fleet: Fleet) {
    WellNamed(fleet)
    && forall name, addr :: name in conf && addr in Split(conf[name].Address, ',') && addr in fleet ==>
      Unique(fleet[addr], conf[name].DefaultDataset)
  }

  lemma EverywhereWithin(conf: NodeMap, after: Fleet, before: Fleet)
    requires UniqueEverywhere(conf, before) && NamesWithin(after, before) && WellNamed(after)
    ensures UniqueEverywhere(conf, after)
  {
    forall name, addr | name in conf && addr in Split(conf[name].Address, ',') && addr in after
      ensures Unique(after[addr], conf[name].DefaultDataset)
    {
      UniqueWithin(after, before, addr, conf[name].DefaultDataset);
    }
  }

  lemma EverywhereAfterSnapshot(conf: NodeMap, fleet: Fleet, t: Target, path: string, name: string, m: Moment)
    requires Coherent(conf) && Resolves(conf, t) && UniqueEverywhere(conf, fleet)
    ensures UniqueEverywhere(conf, SnapshotVolume(conf, fleet, t, path, name, m).1)
  {
    var after := SnapshotVolume(conf, fleet, t, path, name, m).1;
    NamesAfterSnapshot(conf, fleet, t, path, name, m);
    forall n, addr | n in conf && addr in Split(conf[n].Address, ',') && addr in after
      ensures Unique(after[addr], conf[n].DefaultDataset)
    {
      if addr == t.addr {
        assert Share(conf, t.configName, n, addr);
      }
      SnapshotKeepsUnique(conf, fleet, t, path, name, m, addr, conf[n].DefaultDataset);
    }
  }

  lemma DropWithin(fleet: Fleet, t: Target, path: string, name: string)
    ensures NamesWithin(DeleteSnapshotOn(fleet, t, path, name).1, fleet)
  {
  }

  lemma OthersWithin(conf: NodeMap, fleet: Fleet, op: Op)
    requires op.Delete? || op.Expand? || op.Write? || op.DropSnapshot?
    ensures NamesWithin(Step(conf, fleet, op), fleet)
  {
    if op.DropSnapshot? {
      DropWithin(fleet, op.t, op.path, op.name);
    }
  }

  lemma StepKeepsUnique(conf: NodeMap, fleet: Fleet, op: Op)
    requires Coherent(conf) && UniqueEverywhere(conf, fleet) && (op.Write? || Resolves(conf, op.t))
    ensures UniqueEverywhere(conf, Step(conf, fleet, op))
  {
    StepKeepsNames(conf, fleet, op);
    match op
    case Create(t, req, zone, m) =>
      if IsClone(req) {
        EverywhereAfterSnapshot(conf, fleet, t, SourceOf(t, req), CloneSnapName(req.name), m);
      }
      CreateSnaps(conf, fleet, t, req, zone, m);
      SameIsWithin(Step(conf, fleet, op), Between(conf, fleet, t, req, m));
      EverywhereWithin(conf, Step(conf, fleet, op), Between(conf, fleet, t, req, m));
    case CutClone(t, req, _, m) =>
      if IsClone(req) {
        EverywhereAfterSnapshot(conf, fleet, t, SourceOf(t, req), CloneSnapName(req.name), m);
      }
    case TakeSnapshot(t, sourceId, path, name, m) =>
      EverywhereAfterSnapshot(conf, fleet, t, path, name, m);
    case _ =>
      OthersWithin(conf, fleet, op);
      EverywhereWithin(conf, Step(conf, fleet, op), fleet);
  }

  /** Every run of steps on resolved targets keeps snapshot names unique below every default dataset. */
  lemma {:induction false} RunKeepsUnique(conf: NodeMap, fleet: Fleet, ops: seq<Op>)
    requires Coherent(conf) && UniqueEverywhere(conf, fleet)
    requires forall i :: 0 <= i < |ops| ==> ops[i].Write? || Resolves(conf, ops[i].t)
    ensures UniqueEverywhere(conf, Run(conf, fleet, ops))
    decreases |ops|
  {
    if ops != [] {
      StepKeepsUnique(conf, fleet, ops[0]);
      RunKeepsUnique(conf, Step(conf, fleet, ops[0]), ops[1..]);
    }
  }

  /** What a resolved call works on is an entry of the configuration at one of its addresses. */
  lemma SoundResolves(conf: NodeMap, index: ResolverMap, fleet: Fleet, p: Params, t: Target)
    requires Agrees(conf, index) && WellNamed(fleet) && Sound(conf, index, fleet, p, t)
    ensures Resolves(conf, t)
  {
    var addresses := Split(conf[t.configName].Address, ',');
    var i :| 0 <= i < |index[t.configName].Nodes| && index[t.configName].Nodes[i].Address == t.addr;
    assert addresses[i] == t.addr;
    FirstHostIsNode(index[t.configName], fleet, t.datasetPath, t.addr);
  }

  /** With a resolver map that agrees with the configuration, requests resolved in whatever
      order the map gives keep snapshot names unique. */
  lemma {:induction false} CallsKeepUnique(conf: NodeMap, index: ResolverMap, fleet: Fleet, calls: seq<Call>)
    requires Agrees(conf, index) && Coherent(conf) && UniqueEverywhere(conf, fleet)
    requires Called(conf, index, fleet, calls)
    ensures UniqueEverywhere(conf, After(conf, fleet, calls))
    decreases |calls|
  {
    if calls != [] {
      var op := calls[0].op;
      if !op.Write? {
        FoundIsSound(conf, index, fleet, calls[0].p, op.t);
        SoundResolves(conf, index, fleet, calls[0].p, op.t);
      }
      StepKeepsUnique(conf, fleet, op);
      CallsKeepUnique(conf, index, Step(conf, fleet, op), calls[1..]);
    }
  }

  /** A configuration under which no run of requests from a store with unique names ever
      makes a duplicate. */
  ghost predicate RunsSafe(conf: NodeMap, index: ResolverMap) {
    forall fleet: Fleet, calls: seq<Call> ::
      UniqueEverywhere(conf, fleet) && Called(conf, index, fleet, calls) ==>
        UniqueEverywhere(conf, After(conf, fleet, calls))
  }

  /** Runs are safe exactly when entries that share an address cover each other, and every
      default dataset that can have volumes is one whose volumes the appliance lists. */
  lemma RunsSafeIff(conf: NodeMap, index: ResolverMap)
    requires Agrees(conf, index)
    ensures RunsSafe(conf, index) <==> Coherent(conf)
  {
    if Coherent(conf) {
      forall fleet: Fleet, calls: seq<Call> | UniqueEverywhere(conf, fleet) && Called(conf, index, fleet, calls)
        ensures UniqueEverywhere(conf, After(conf, fleet, calls))
      {
        CallsKeepUnique(conf, index, fleet, calls);
      }
    } else {
      var m, n, addr :| Share(conf, m, n, addr) && Rooted(conf[n].DefaultDataset)
                        && !Covers(conf[m].DefaultDataset, conf[n].DefaultDataset);
      UnsafeRun(conf, index, m, n, addr);
    }
  }

  /* ---------------------------------------------------------------- an unsafe request */

  /** A request to clone the volume "y" of the dataset `top` under the name "v". */
  function CloneRequest(top: string): CreateRequest {
    CreateRequest("v", Supported, Some(FromVolume("y")), top, "", None, 0, None, None, "", "", "")
  }

  lemma CloneRequestAsks(conf: NodeMap, top: string, t: Target)
    requires t.datasetPath == top
    ensures CreateParams(conf, CloneRequest(top), "") == Ok(Params(top, "", ""))
    ensures IsClone(CloneRequest(top)) && SourceOf(t, CloneRequest(top)) == top + "/y"
  {
    SplitNone("y", ':');
    assert JoinPath(top, "y") == top + "/y";
  }

  /** Where there is only one appliance, the dataset is found on it. */
  lemma OnlyAppliance(resolver: Resolver, fleet: Fleet, addr: string, path: string)
    requires HasNode(resolver, addr) && Hosts(fleet, addr, path) && path != "" && fleet.Keys == {addr}
    ensures ResolveOn(resolver, fleet, path) == Done(addr) && FirstHost(resolver, fleet, path, addr)
  {
    ResolveOnMeaning(resolver, fleet, path);
    assert SomeHosts(resolver, fleet, path);
    var found := ResolveOn(resolver, fleet, path).value;
    FirstHostIsNode(resolver, fleet, path, found);
  }

  /** Resolution may give the default dataset of one entry through any entry that shares its address. */
  lemma MayBeFound(conf: NodeMap, index: ResolverMap, m: string, addr: string, top: string, name: string)
    requires Agrees(conf, index) && m in conf && addr in Split(conf[m].Address, ',') && top != ""
    ensures Answers(conf, index, TwoVolumes(addr, top, name), Params(top, "", ""), Found(Target(top, addr, m)))
  {
    var addresses, fleet := Split(conf[m].Address, ','), TwoVolumes(addr, top, name);
    var i :| 0 <= i < |addresses| && addresses[i] == addr;
    assert index[m].Nodes[i].Address == addr && Hosts(fleet, addr, top);
    OnlyAppliance(index[m], fleet, addr, top);
  }

  lemma DuplicateStays(conf: NodeMap, t: Target, top: string, m: Moment)
    requires t.configName in conf && t.datasetPath == top && !Covers(conf[t.configName].DefaultDataset, top)
    ensures var fleet := TwoVolumes(t.addr, top, CloneSnapName("v"));
            var after := CreateOn(conf, fleet, t, CloneRequest(top), "", m).1;
            t.addr in after && !Unique(after[t.addr], top)
  {
    var name, req := CloneSnapName("v"), CloneRequest(top);
    var fleet := TwoVolumes(t.addr, top, name);
    CloneRequestAsks(conf, top, t);
    UnseenDuplicate(conf, t, top, name, m);
    CreateSnaps(conf, fleet, t, req, "", m);
    StillTwice(CreateOn(conf, fleet, t, req, "", m).1, Between(conf, fleet, t, req, m), t.addr, top, name);
  }

  lemma StillTwice(after: Fleet, before: Fleet, addr: string, top: string, name: string)
    requires SnapsSame(after, before) && addr in before && Twice(before[addr], top, name)
    ensures addr in after && !Unique(after[addr], top)
  {
    assert SnapsIn(after, addr, top + "/x") == SnapsIn(before, addr, top + "/x");
    assert SnapsIn(after, addr, top + "/y") == SnapsIn(before, addr, top + "/y");
    TwiceIsNotUnique(after[addr], top, name);
  }

  lemma UnsafeRun(conf: NodeMap, index: ResolverMap, m: string, n: string, addr: string)
    requires Agrees(conf, index)
    requires m in conf && n in conf && addr in Split(conf[m].Address, ',') && addr in Split(conf[n].Address, ',')
    requires Rooted(conf[n].DefaultDataset) && !Covers(conf[m].DefaultDataset, conf[n].DefaultDataset)
    ensures !RunsSafe(conf, index)
  {
    var top := conf[n].DefaultDataset;
    var t, now, name := Target(top, addr, m), Moment("", 0), CloneSnapName("v");
    var call := Call(Params(top, "", ""), Create(t, CloneRequest(top), "", now));
    CloneRequestAsks(conf, top, t);
    MayBeFound(conf, index, m, addr, top, name);
    DuplicateStays(conf, t, top, now);
    EverywhereAtStart(conf, addr, top, name);
    OneBadCall(conf, index, TwoVolumes(addr, top, name), call, n);
  }

  lemma EverywhereAtStart(conf: NodeMap, addr: string, top: string, name: string)
    requires Rooted(top)
    ensures UniqueEverywhere(conf, TwoVolumes(addr, top, name))
  {
    StartUnique(addr, top, top, name);
    forall n | n in conf ensures Unique(TwoVolumes(addr, top, name)[addr], conf[n].DefaultDataset) {
      StartUnique(addr, top, conf[n].DefaultDataset, name);
    }
  }

  lemma OneBadCall(conf: NodeMap, index: ResolverMap, fleet: Fleet, call: Call, n: string)
    requires UniqueEverywhere(conf, fleet) && Asks(conf, call.p, call.op)
    requires Answers(conf, index, fleet, call.p, Found(call.op.t))
    requires n in conf && call.op.t.addr in Split(conf[n].Address, ',') && call.op.t.addr in Step(conf, fleet, call.op)
    requires !Unique(Step(conf, fleet, call.op)[call.op.t.addr], conf[n].DefaultDataset)
    ensures !RunsSafe(conf, index)
  {
    var after := Step(conf, fleet, call.op);
    assert [call][1..] == [] && [call][0] == call;
    assert Called(conf, index, after, []);
    assert Called(conf, index, fleet, [call]);
    assert After(conf, fleet, [call]) == After(conf, after, []) == after;
  }
}
