/** What each node contributes to the volume and snapshot listings. */
module Listing {
  import opened Text
  import opened Storage
  import opened Configuration
  import opened Identifiers
  import opened Provision
  import opened Bsr
  import opened SnapPaging
  import opened Paging
  import opened Resolution
  import opened Status

  /* ---------------------------------------------------------------- volumes */

  /** The usable datasets of one address of an entry. */
  ghost function PathsAt(fleet: Fleet, resolver: Resolver, addr: string): seq<string> {
    if Reached(resolver, addr) && addr in fleet then UsablePaths(fleet[addr]) else []
  }

  ghost function PathsOver(fleet: Fleet, resolver: Resolver, addresses: seq<string>): seq<string> {
    if addresses == [] then []
    else PathsOver(fleet, resolver, addresses[..|addresses| - 1]) + PathsAt(fleet, resolver, addresses[|addresses| - 1])
  }

  function VolumeIds(name: string, paths: seq<string>): seq<string> {
    seq(|paths|, i requires 0 <= i < |paths| => VolumeId(name, paths[i]))
  }

  function Addresses(conf: NodeMap, name: string): seq<string>
    requires name in conf
  {
    Split(conf[name].Address, ',')
  }

  /** The volume ids an entry lists. */
  ghost function EntryVolumes(conf: NodeMap, index: ResolverMap, fleet: Fleet, name: string): seq<string>
    requires name in conf && name in index
  {
    VolumeIds(name, PathsOver(fleet, index[name], Addresses(conf, name)))
  }

  ghost predicate Known(conf: NodeMap, index: ResolverMap, nodes: seq<string>) {
    forall i :: 0 <= i < |nodes| ==> nodes[i] in conf && nodes[i] in index
  }

  ghost function VolumeLists(conf: NodeMap, index: ResolverMap, fleet: Fleet, nodes: seq<string>): (r: seq<seq<string>>)
    requires Known(conf, index, nodes)
    ensures |r| == |nodes|
  {
    seq(|nodes|, i requires 0 <= i < |nodes| => EntryVolumes(conf, index, fleet, nodes[i]))
  }

  /* ---------------------------------------------------------------- snapshots */

  /** The paths below a default dataset. */
  function Below(paths: seq<string>, top: string): seq<string> {
    if paths == [] then []
    else Below(paths[..|paths| - 1], top) + if Under(paths[|paths| - 1], top) then [paths[|paths| - 1]] else []
  }

  /** The snapshots somebody created, of the usable datasets below the default one. */
  ghost function SnapsAt(fleet: Fleet, resolver: Resolver, addr: string, top: string): seq<Snapshot> {
    if Reached(resolver, addr) && addr in fleet then
      Visible(SnapsOfAll(fleet[addr], Below(UsablePaths(fleet[addr]), top)))
    else []
  }

  ghost function SnapsOver(fleet: Fleet, resolver: Resolver, addresses: seq<string>, top: string): seq<Snapshot> {
    if addresses == [] then []
    else SnapsOver(fleet, resolver, addresses[..|addresses| - 1], top)
         + SnapsAt(fleet, resolver, addresses[|addresses| - 1], top)
  }

  function ConvertAll(snaps: seq<Snapshot>, configName: string): seq<CsiSnapshot> {
    seq(|snaps|, i requires 0 <= i < |snaps| => ConvertSnap(snaps[i], configName))
  }

  ghost function EntrySnaps(conf: NodeMap, index: ResolverMap, fleet: Fleet, name: string): seq<CsiSnapshot>
    requires name in conf && name in index
  {
    ConvertAll(SnapsOver(fleet, index[name], Addresses(conf, name), conf[name].DefaultDataset), name)
  }

  ghost function SnapLists(conf: NodeMap, index: ResolverMap, fleet: Fleet, nodes: seq<string>)
    : (r: seq<seq<CsiSnapshot>>)
    requires Known(conf, index, nodes)
    ensures |r| == |nodes|
  {
    seq(|nodes|, i requires 0 <= i < |nodes| => EntrySnaps(conf, index, fleet, nodes[i]))
  }

  lemma SortedKnown(conf: NodeMap, index: ResolverMap)
    requires conf.Keys <= index.Keys
    ensures Known(conf, index, Sorted(conf.Keys))
  {
    var nodes := Sorted(conf.Keys);
    forall i | 0 <= i < |nodes| ensures nodes[i] in conf && nodes[i] in index {
      assert nodes[i] in nodes;
    }
  }

  lemma PathsOverSnoc(fleet: Fleet, resolver: Resolver, addresses: seq<string>, i: nat)
    requires i < |addresses|
    ensures PathsOver(fleet, resolver, addresses[..i + 1])
            == PathsOver(fleet, resolver, addresses[..i]) + PathsAt(fleet, resolver, addresses[i])
  {
    assert addresses[..i + 1][..i] == addresses[..i];
  }

  lemma SnapsOverSnoc(fleet: Fleet, resolver: Resolver, addresses: seq<string>, top: string, i: nat)
    requires i < |addresses|
    ensures SnapsOver(fleet, resolver, addresses[..i + 1], top)
            == SnapsOver(fleet, resolver, addresses[..i], top) + SnapsAt(fleet, resolver, addresses[i], top)
  {
    assert addresses[..i + 1][..i] == addresses[..i];
  }

  /** What an entry lists is what its addresses list, one after another. */
  lemma AddressesInTurn(fleet: Fleet, resolver: Resolver, a: seq<string>, addr: string)
    ensures PathsOver(fleet, resolver, []) == []
    ensures PathsOver(fleet, resolver, a + [addr])
            == PathsOver(fleet, resolver, a)
               + if addr != "" && HasNode(resolver, addr) && addr in fleet then UsablePaths(fleet[addr]) else []
  {
    assert (a + [addr])[..|a|] == a;
  }

  /** So are its snapshots. */
  lemma SnapshotsInTurn(fleet: Fleet, resolver: Resolver, a: seq<string>, addr: string, top: string)
    ensures SnapsOver(fleet, resolver, [], top) == []
    ensures SnapsOver(fleet, resolver, a + [addr], top)
            == SnapsOver(fleet, resolver, a, top)
               + if addr != "" && HasNode(resolver, addr) && addr in fleet then
                   Visible(SnapsOfAll(fleet[addr], Below(UsablePaths(fleet[addr]), top)))
                 else []
  {
    assert (a + [addr])[..|a|] == a;
  }

  lemma BelowSnoc(paths: seq<string>, top: string, i: nat)
    requires i < |paths|
    ensures Below(paths[..i + 1], top)
            == Below(paths[..i], top) + if Under(paths[i], top) then [paths[i]] else []
  {
    assert paths[..i + 1][..i] == paths[..i];
  }

  lemma VisibleNext(snaps: seq<Snapshot>, i: nat)
    requires i < |snaps|
    ensures Visible(snaps[..i + 1]) == Visible(snaps[..i]) + if snaps[i].CreatedBy == "" then [] else [snaps[i]]
  {
    assert snaps[..i + 1][..i] == snaps[..i];
  }

  /** Listing by volume takes an id that is not "config:path" for a bare path. */
  function DsSnapParams(volumeId: string): Params {
    var flds := Split(volumeId, ':');
    if |flds| == 2 then Params(flds[1], "", flds[0]) else Params(volumeId, "", "")
  }

  /** The reply to a request for the snapshots of one volume, resolved to `at`. */
  ghost predicate VolumeSnapsReply(conf: NodeMap, index: ResolverMap, fleet: Fleet, volumeId: string, token: string,
                                   maxEntries: int, r: Result<Page<CsiSnapshot>>, at: Resolved) {
    var params := DsSnapParams(volumeId);
    && Answers(conf, index, fleet, params, at)
    && match at
       case Unresolved(_) => r == Ok(Page([], ""))
       case Found(t) =>
         && t.addr in fleet
         && var p := PageOf(SnapsOf(fleet[t.addr], params.datasetPath), token, maxEntries);
         r == Ok(Page(ConvertAll(p.entries, t.configName), p.next))
  }

  /* ---------------------------------------------------------------- membership */

  lemma {:induction false} BelowMembers(paths: seq<string>, top: string)
    ensures forall p :: p in Below(paths, top) <==> p in paths && Under(p, top)
    decreases |paths|
  {
    if paths != [] {
      BelowMembers(paths[..|paths| - 1], top);
      assert paths == paths[..|paths| - 1] + [paths[|paths| - 1]];
    }
  }

  lemma SnapsOfMember(node: Node, path: string, s: Snapshot)
    ensures s in SnapsOf(node, path) <==>
              path in node.datasets && s.Path == path && s.Name in node.datasets[path].snaps
              && s == Shown(path, s.Name, node.datasets[path].snaps[s.Name])
  {
    if path in node.datasets {
      var ds := node.datasets[path];
      var names := Sorted(ds.snaps.Keys);
      var list := ShownAll(path, ds, names);
      if s.Name in ds.snaps && s == Shown(path, s.Name, ds.snaps[s.Name]) {
        assert s.Name in names;
        var i :| 0 <= i < |names| && names[i] == s.Name;
        assert list[i] == s;
      }
      if s in list {
        var i :| 0 <= i < |list| && list[i] == s;
        assert names[i] in names;
      }
    }
  }

  lemma {:induction false} SnapsOfAllMember(node: Node, paths: seq<string>, s: Snapshot)
    ensures s in SnapsOfAll(node, paths) <==>
              s.Path in paths && s.Path in node.datasets && s.Name in node.datasets[s.Path].snaps
              && s == Shown(s.Path, s.Name, node.datasets[s.Path].snaps[s.Name])
    decreases |paths|
  {
    if paths != [] {
      SnapsOfMember(node, paths[0], s);
      SnapsOfAllMember(node, paths[1..], s);
      assert paths == [paths[0]] + paths[1..];
    }
  }

  /** The snapshot is one of a usable dataset below `top`. */
  predicate Carries(node: Node, top: string, s: Snapshot) {
    s.Path in node.datasets && Usable(s.Path) && Under(s.Path, top) && s.Name in node.datasets[s.Path].snaps
    && s == Shown(s.Path, s.Name, node.datasets[s.Path].snaps[s.Name])
  }

  /** Exactly the snapshots below the default dataset are looked through for a name. */
  lemma ScannedSnaps(node: Node, top: string, s: Snapshot)
    ensures s in SnapsOfAll(node, Below(UsablePaths(node), top)) <==> Carries(node, top, s)
  {
    UsableListed(node);
    BelowMembers(UsablePaths(node), top);
    SnapsOfAllMember(node, Below(UsablePaths(node), top), s);
  }

  /** So the name is taken exactly when one of them, on another dataset, has it. */
  lemma ScanDecides(node: Node, top: string, volumePath: string, snapName: string)
    ensures NameTaken(node, top, volumePath, snapName) <==>
              exists s: Snapshot ::
                s in SnapsOfAll(node, Below(UsablePaths(node), top)) && s.Path != volumePath && s.Name == snapName
  {
    var snaps := SnapsOfAll(node, Below(UsablePaths(node), top));
    if NameTaken(node, top, volumePath, snapName) {
      var p :| p in node.datasets && Usable(p) && Under(p, top) && p != volumePath
               && snapName in node.datasets[p].snaps;
      var s := Shown(p, snapName, node.datasets[p].snaps[snapName]);
      ScannedSnaps(node, top, s);
      assert s in snaps && s.Path != volumePath && s.Name == snapName;
    }
    if s: Snapshot :| s in snaps && s.Path != volumePath && s.Name == snapName {
      ScannedSnaps(node, top, s);
    }
  }
}
