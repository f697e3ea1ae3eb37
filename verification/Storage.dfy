/** The storage appliances as the driver sees them through their REST interface: per
    address a map from dataset path to content, quota, share and named snapshots. */
module Storage {
  import opened Text

  /** A point-in-time image of a dataset. */
  datatype Snap = Snap(content: string, createdBy: string, created: int)

  /** A quota of zero means that none is set. */
  datatype Dataset = Dataset(content: string, quota: int, share: Option<string>, snaps: map<string, Snap>)

  /** One appliance; `space` is what a dataset without a quota can hold. */
  datatype Node = Node(space: nat, datasets: map<string, Dataset>)

  /** The reachable appliances by address. */
  type Fleet = map<string, Node>

  /** Failures as the driver tells them apart by their text. */
  datatype BsrError = NotExist | Exists | Other

  datatype Reply<+T> = Done(value: T) | Failed(err: BsrError)

  /** Snapshot data as listed. */
  datatype Snapshot = Snapshot(Path: string, Name: string, CreatedBy: string, CreationTime: int)

  /** Dataset data as listed. */
  datatype DatasetInfo = DatasetInfo(Path: string, BytesAvailable: int, BytesUsed: int)
  {
    function GetRefQuotaSize(): int { BytesAvailable + BytesUsed }
  }

  /* ---------------------------------------------------------------- paths */

  /** Datasets the driver lists: "pool/global..." outside the boot pool. */
  predicate Usable(path: string) {
    var flds := SplitOnce(path, '/');
    !HasPrefix(path, "bp") && |flds| == 2 && HasPrefix(flds[1], "global")
  }

  function PoolOf(path: string): string { SplitOnce(path, '/')[0] }

  /** filepath.Join of clean names. */
  function JoinPath(parent: string, name: string): string { parent + "/" + name }

  /** Datasets below another one. */
  predicate Under(path: string, top: string) { HasPrefix(path, top + "/") }

  function SnapPath(path: string, name: string): string { path + "@" + name }

  /* ---------------------------------------------------------------- lookups */

  predicate Hosts(fleet: Fleet, addr: string, path: string) {
    addr in fleet && path in fleet[addr].datasets
  }

  function Put(fleet: Fleet, addr: string, path: string, ds: Dataset): Fleet
    requires addr in fleet
  {
    fleet[addr := fleet[addr].(datasets := fleet[addr].datasets[path := ds])]
  }

  function Remove(fleet: Fleet, addr: string, path: string): Fleet
    requires addr in fleet
  {
    fleet[addr := fleet[addr].(datasets := fleet[addr].datasets - {path})]
  }

  /** All datasets but this one, on all appliances, are as they were. */
  ghost predicate OnlyChanges(after: Fleet, before: Fleet, addr: string, path: string) {
    && after.Keys == before.Keys && (forall a :: a in before ==> after[a].space == before[a].space)
    && forall a, p :: a != addr || p != path ==>
         (Hosts(after, a, p) <==> Hosts(before, a, p))
         && (Hosts(before, a, p) ==> after[a].datasets[p] == before[a].datasets[p])
  }

  /** What a dataset can hold. */
  function SizeOf(node: Node, ds: Dataset): int { if ds.quota > 0 then ds.quota else node.space }

  /** Sizes are filled in from the filtered list, so they stay zero for other datasets. */
  function Describe(node: Node, path: string): DatasetInfo
    requires path in node.datasets
  {
    var ds := node.datasets[path];
    if Usable(path) then DatasetInfo(path, SizeOf(node, ds) - |ds.content|, |ds.content|)
    else DatasetInfo(path, 0, 0)
  }

  function GetDataset(fleet: Fleet, addr: string, path: string): Reply<DatasetInfo> {
    if path == "" || addr !in fleet then Failed(Other)
    else if path !in fleet[addr].datasets then Failed(NotExist)
    else Done(Describe(fleet[addr], path))
  }

  /** "path@name", or nothing. */
  function SnapshotAt(fleet: Fleet, addr: string, snapPath: string): Option<(string, string)> {
    var p := Split(snapPath, '@');
    if |p| == 2 && Hosts(fleet, addr, p[0]) && p[1] in fleet[addr].datasets[p[0]].snaps then Some((p[0], p[1]))
    else None
  }

  /** The path of a snapshot leads to that snapshot and no other. */
  lemma SnapPathParts(fleet: Fleet, addr: string, path: string, name: string)
    ensures SnapshotAt(fleet, addr, SnapPath(path, name)) in {None, Some((path, name))}
    ensures '@' !in path && '@' !in name && Hosts(fleet, addr, path) && name in fleet[addr].datasets[path].snaps ==>
              SnapshotAt(fleet, addr, SnapPath(path, name)) == Some((path, name))
  {
    if '@' !in path {
      SplitCons(path, '@', name);
      SplitInTwo(name, '@');
      if '@' !in name {
        SplitNone(name, '@');
      }
    } else {
      SplitInTwo(SnapPath(path, name), '@');
      AtTwice(path, name);
    }
  }

  lemma AtTwice(path: string, name: string)
    requires '@' in path
    ensures |Split(SnapPath(path, name), '@')| != 2
  {
    var i := IndexOf(path, '@');
    var a, b := path[..i], path[i + 1..];
    assert SnapPath(path, name) == a + ['@'] + (b + "@" + name);
    SplitCons(a, '@', b + "@" + name);
    assert (b + "@" + name)[|b|] == '@';
    SplitInTwo(b + "@" + name, '@');
  }

  function Shown(path: string, name: string, snap: Snap): Snapshot {
    Snapshot(path, name, snap.createdBy, snap.created)
  }

  function GetSnapshot(fleet: Fleet, addr: string, snapPath: string): Reply<Snapshot> {
    match SnapshotAt(fleet, addr, snapPath)
    case None => Failed(Other)
    case Some((path, name)) => Done(Shown(path, name, fleet[addr].datasets[path].snaps[name]))
  }

  /* ---------------------------------------------------------------- changes */

  function Quota(requested: int): int { if requested > 0 then requested else 0 }

  function CreateDataset(fleet: Fleet, addr: string, path: string, quota: int): (Reply<()>, Fleet) {
    if path == "" || '@' in path || addr !in fleet then (Failed(Other), fleet)
    else if path in fleet[addr].datasets then (Failed(Exists), fleet)
    else (Done(()), Put(fleet, addr, path, Dataset("", Quota(quota), None, map[])))
  }

  function UpdateDataset(fleet: Fleet, addr: string, path: string, quota: int): (Reply<()>, Fleet) {
    if path == "" || addr !in fleet then (Failed(Other), fleet)
    else if path !in fleet[addr].datasets then (Failed(NotExist), fleet)
    else (Done(()), Put(fleet, addr, path, fleet[addr].datasets[path].(quota := Quota(quota))))
  }

  function DestroyDataset(fleet: Fleet, addr: string, path: string): (Reply<()>, Fleet) {
    if path == "" || addr !in fleet then (Failed(Other), fleet)
    else if path !in fleet[addr].datasets then (Failed(NotExist), fleet)
    else (Done(()), Remove(fleet, addr, path))
  }

  function ShareText(nfsArgs: string): string {
    if nfsArgs != "" then "anon=0,sec=sys" + "," + nfsArgs else "anon=0,sec=sys"
  }

  function CreateNfsShare(fleet: Fleet, addr: string, path: string, nfsArgs: string): (Reply<()>, Fleet) {
    if path == "" || addr !in fleet then (Failed(Other), fleet)
    else if path !in fleet[addr].datasets then (Failed(NotExist), fleet)
    else (Done(()), Put(fleet, addr, path, fleet[addr].datasets[path].(share := Some(ShareText(nfsArgs)))))
  }

  /** `user` is who the snapshot is created by and `now` the appliance's clock. */
  function CreateSnapshot(fleet: Fleet, addr: string, path: string, name: string, user: string, now: int)
    : (Reply<Snapshot>, Fleet)
  {
    if path == "" || name == "" || '@' in name || addr !in fleet then (Failed(Other), fleet)
    else if path !in fleet[addr].datasets then (Failed(NotExist), fleet)
    else
      var ds := fleet[addr].datasets[path];
      if name in ds.snaps then (Failed(Other), fleet)
      else
        var snap := Snap(ds.content, user, now);
        (Done(Shown(path, name, snap)), Put(fleet, addr, path, ds.(snaps := ds.snaps[name := snap])))
  }

  function DestroySnapshot(fleet: Fleet, addr: string, snapPath: string): (Reply<()>, Fleet) {
    if addr !in fleet then (Failed(Other), fleet)
    else
      match SnapshotAt(fleet, addr, snapPath)
      case None => (Failed(NotExist), fleet)
      case Some((path, name)) =>
        var ds := fleet[addr].datasets[path];
        (Done(()), Put(fleet, addr, path, ds.(snaps := ds.snaps - {name})))
  }

  /** The content a clone starts from: that of the snapshot, or, when a dataset is named,
      that of a snapshot taken now. */
  function CloneSource(fleet: Fleet, addr: string, src: string): Option<(string, string)> {
    match SnapshotAt(fleet, addr, src)
    case Some((path, name)) => Some((path, fleet[addr].datasets[path].snaps[name].content))
    case None => if Hosts(fleet, addr, src) then Some((src, fleet[addr].datasets[src].content)) else None
  }

  function CloneSnapshot(fleet: Fleet, addr: string, src: string, target: string, quota: int): (Reply<()>, Fleet) {
    if src == "" || target == "" || '@' in target || addr !in fleet then (Failed(Other), fleet)
    else if target in fleet[addr].datasets then (Failed(Exists), fleet)
    else
      match CloneSource(fleet, addr, src)
      case None => (Failed(NotExist), fleet)
      case Some((path, content)) =>
        if PoolOf(path) != PoolOf(target) then (Failed(Other), fleet)
        else (Done(()), Put(fleet, addr, target, Dataset(content, Quota(quota), None, map[])))
  }

  /* ---------------------------------------------------------------- listings */

  function Filtered(paths: seq<string>): seq<string> {
    if paths == [] then []
    else if Usable(paths[0]) then [paths[0]] + Filtered(paths[1..])
    else Filtered(paths[1..])
  }

  /** The datasets of an appliance that the driver lists, in path order. */
  ghost function UsablePaths(node: Node): seq<string> { Filtered(Sorted(node.datasets.Keys)) }

  function ShownAll(path: string, ds: Dataset, names: seq<string>): seq<Snapshot>
    requires forall i :: 0 <= i < |names| ==> names[i] in ds.snaps
  {
    seq(|names|, i requires 0 <= i < |names| => Shown(path, names[i], ds.snaps[names[i]]))
  }

  /** The snapshots of one dataset, in name order. */
  ghost function SnapsOf(node: Node, path: string): seq<Snapshot> {
    if path in node.datasets then
      ShownAll(path, node.datasets[path], Sorted(node.datasets[path].snaps.Keys))
    else []
  }

  /** The snapshots of several datasets. */
  ghost function SnapsOfAll(node: Node, paths: seq<string>): seq<Snapshot> {
    if paths == [] then [] else SnapsOf(node, paths[0]) + SnapsOfAll(node, paths[1..])
  }

  lemma {:induction false} FilteredMembers(paths: seq<string>)
    ensures forall p :: p in Filtered(paths) <==> p in paths && Usable(p)
  {
    if paths != [] {
      FilteredMembers(paths[1..]);
      assert paths == [paths[0]] + paths[1..];
    }
  }

  lemma UsableListed(node: Node)
    ensures forall p :: p in UsablePaths(node) <==> p in node.datasets && Usable(p)
  {
    FilteredMembers(Sorted(node.datasets.Keys));
  }

  lemma {:induction false} FilteredSorted(paths: seq<string>)
    requires StrictlySorted(paths)
    ensures StrictlySorted(Filtered(paths))
  {
    if paths != [] {
      FilteredSorted(paths[1..]);
      FilteredMembers(paths[1..]);
      forall p | p in Filtered(paths[1..]) ensures Less(paths[0], p) {
        assert p in paths[1..];
      }
    }
  }

  /** The listed paths are the sorted listing of the usable ones, and the snapshots of a dataset
      stand in the order of their names. */
  lemma ListedInOrder(node: Node, path: string)
    ensures ListsInOrder(UsablePaths(node), set p | p in node.datasets && Usable(p))
    ensures path in node.datasets ==>
              && |SnapsOf(node, path)| == |Sorted(node.datasets[path].snaps.Keys)|
              && forall i :: 0 <= i < |SnapsOf(node, path)| ==>
                   SnapsOf(node, path)[i].Name == Sorted(node.datasets[path].snaps.Keys)[i]
  {
    UsableListed(node);
    FilteredSorted(Sorted(node.datasets.Keys));
  }

  lemma PrefixBelow(s: string, name: string, prefix: string)
    requires '/' !in prefix
    ensures HasPrefix(s + "/" + name, prefix) <==> HasPrefix(s, prefix)
  {
    var t := s + "/" + name;
    if |prefix| <= |s| {
      assert t[..|prefix|] == s[..|prefix|];
    } else {
      assert t[|s|] == '/';
      assert prefix[|s|] != '/';
      assert |prefix| <= |t| ==> t[..|prefix|][|s|] == '/';
    }
  }

  lemma CutBelow(top: string, name: string)
    ensures var f := SplitOnce(top, '/'); var g := SplitOnce(top + "/" + name, '/');
            && |g| == 2 && g[0] == f[0]
            && (|f| == 2 ==> g[1] == f[1] + "/" + name) && (|f| == 1 ==> g[1] == name)
  {
    var i := IndexOf(top, '/');
    if i < |top| {
      var a, b := top[..i], top[i + 1..];
      assert top == a + ['/'] + b;
      assert top + "/" + name == a + ['/'] + (b + "/" + name);
      SplitCons(a, '/', b + "/" + name);
    } else {
      assert top[..i] == top;
      SplitCons(top, '/', name);
    }
  }

  /** Everything below a usable dataset is usable, and below any other dataset something is not. */
  lemma UsableBelow(top: string, name: string)
    ensures Usable(top) ==> Usable(top + "/" + name)
    ensures !Usable(top) ==> !Usable(top + "/x")
  {
    PrefixBelow(top, name, "bp");
    PrefixBelow(top, "x", "bp");
    CutBelow(top, name);
    CutBelow(top, "x");
    assert top + "/" + "x" == top + "/x";
    var f := SplitOnce(top, '/');
    if |f| == 2 {
      PrefixBelow(f[1], name, "global");
      PrefixBelow(f[1], "x", "global");
    }
  }

  lemma PoolBelow(top: string, name: string)
    ensures PoolOf(JoinPath(top, name)) == PoolOf(top)
  {
    CutBelow(top, name);
  }

  /** Which paths the driver lists: below a pool whose name does not start with "bp", with a
      rest that starts with "global". A pool by itself is not listed. */
  lemma UsableForm(pool: string, rest: string)
    requires '/' !in pool
    ensures Usable(pool + "/" + rest) <==> !("bp" <= pool) && "global" <= rest
    ensures !Usable(pool)
  {
    SplitCons(pool, '/', rest);
    SplitNone(pool, '/');
    PrefixBelow(pool, rest, "bp");
  }

  /** The pool of a path is what is in front of its first slash. */
  lemma PoolForm(pool: string, rest: string)
    requires '/' !in pool
    ensures PoolOf(pool + "/" + rest) == pool && PoolOf(pool) == pool
  {
    SplitCons(pool, '/', rest);
    SplitNone(pool, '/');
  }

  /** What is below a dataset: the paths that continue it after a slash. */
  lemma UnderForm(path: string, top: string)
    ensures Under(path, top) <==> exists rest: string :: path == top + "/" + rest
  {
    if Under(path, top) {
      assert path == top + "/" + path[|top| + 1..];
    }
    if rest: string :| path == top + "/" + rest {
      assert path[..|top| + 1] == top + "/";
    }
  }
}
