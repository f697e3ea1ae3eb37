/** The volume and snapshot listings over all nodes: what a caller sees that follows the
    tokens from the first page to the last. */
module ListingLaws {
  import opened Text
  import opened Storage
  import opened Configuration
  import opened Identifiers
  import opened Provision
  import opened Paging
  import opened SnapPaging
  import opened Bsr
  import opened Listing
  import opened Resolution
  import opened Status
  import opened RunLaws
  import opened VolumeLaws
  import opened RepeatLaws

  /** The volumes of an entry: the usable datasets of its reachable addresses. */
  ghost predicate ListedVolume(conf: NodeMap, fleet: Fleet, name: string, path: string) {
    name in conf
    && exists addr :: addr in Addresses(conf, name) && addr in fleet && path in fleet[addr].datasets && Usable(path)
  }

  /** The snapshots of an entry: those somebody created, of usable datasets below the
      default one. */
  ghost predicate ListedSnapshot(conf: NodeMap, fleet: Fleet, name: string, s: Snapshot) {
    name in conf && s.CreatedBy != ""
    && exists addr ::
         addr in Addresses(conf, name) && addr in fleet && Carries(fleet[addr], conf[name].DefaultDataset, s)
  }

  /** An address counts when it is not empty and a node of the resolver has it. */
  lemma {:induction false} PathsOverMembers(fleet: Fleet, resolver: Resolver, addresses: seq<string>)
    ensures forall p :: p in PathsOver(fleet, resolver, addresses) <==>
              exists addr :: addr in addresses && addr != "" && HasNode(resolver, addr)
                             && addr in fleet && p in fleet[addr].datasets && Usable(p)
    decreases |addresses|
  {
    if addresses != [] {
      var init, last := addresses[..|addresses| - 1], addresses[|addresses| - 1];
      assert addresses == init + [last];
      PathsOverMembers(fleet, resolver, init);
      if last in fleet {
        UsableListed(fleet[last]);
      }
    }
  }

  lemma {:induction false} SnapsOverMembers(fleet: Fleet, resolver: Resolver, addresses: seq<string>, top: string,
                                            s: Snapshot)
    ensures s in SnapsOver(fleet, resolver, addresses, top) <==>
              s.CreatedBy != ""
              && exists addr :: addr in addresses && addr != "" && HasNode(resolver, addr)
                                && addr in fleet && Carries(fleet[addr], top, s)
    decreases |addresses|
  {
    if addresses != [] {
      var init, last := addresses[..|addresses| - 1], addresses[|addresses| - 1];
      assert addresses == init + [last];
      SnapsOverMembers(fleet, resolver, init, top, s);
      if last in fleet {
        VisibleMembers(SnapsOfAll(fleet[last], Below(UsablePaths(fleet[last]), top)), s);
        ScannedSnaps(fleet[last], top, s);
      }
    }
  }

  lemma {:induction false} VisibleMembers(snaps: seq<Snapshot>, s: Snapshot)
    ensures s in Visible(snaps) <==> s in snaps && s.CreatedBy != ""
    decreases |snaps|
  {
    if snaps != [] {
      VisibleMembers(snaps[..|snaps| - 1], s);
      assert snaps == snaps[..|snaps| - 1] + [snaps[|snaps| - 1]];
    }
  }

  lemma {:induction false} FlattenMembers<T>(lists: seq<seq<T>>, x: T)
    ensures x in Flatten(lists) <==> exists i :: 0 <= i < |lists| && x in lists[i]
  {
    if lists != [] {
      FlattenMembers(lists[1..], x);
      if i :| 0 <= i < |lists[1..]| && x in lists[1..][i] {
        assert lists[i + 1] == lists[1..][i];
      }
      if i :| 0 < i < |lists| && x in lists[i] {
        assert lists[1..][i - 1] == lists[i];
      }
    }
  }

  /** A configuration and store that paging can get through. */
  ghost predicate Pageable(conf: NodeMap, index: ResolverMap) {
    Agrees(conf, index) && conf != map[] && forall name :: name in conf ==> ':' !in name
  }

  lemma SortedNames(conf: NodeMap, index: ResolverMap)
    requires Pageable(conf, index)
    ensures var nodes := Sorted(conf.Keys);
            && nodes != [] && Known(conf, index, nodes) && Distinct(nodes)
            && forall i :: 0 <= i < |nodes| ==> ':' !in nodes[i]
  {
    var nodes := Sorted(conf.Keys);
    SortedKnown(conf, index);
    var name :| name in conf;
    assert name in nodes;
    forall i, j | 0 <= i < j < |nodes| ensures nodes[i] != nodes[j] {
      LessTotal(nodes[i], nodes[j]);
    }
  }

  /** The volume listing is complete: whatever the page sizes, the pages together are the
      lists of the entries in name order, each id once per dataset, and an id is listed
      exactly when it stands for a usable dataset of an entry. */
  lemma VolumeListingComplete(conf: NodeMap, index: ResolverMap, fleet: Fleet, size: nat -> nat, id: string)
    requires Pageable(conf, index)
    requires forall name :: name in conf ==> |EntryVolumes(conf, index, fleet, name)| <= 0x8000_0000
    ensures Known(conf, index, Sorted(conf.Keys))
    ensures var nodes := Sorted(conf.Keys); var lists := VolumeLists(conf, index, fleet, nodes);
            && Catalog(nodes, lists) && AcceptedToken("", nodes)
            && Chained(nodes, lists, "", size, 0, false, Drain(nodes, lists, "", size, 0, false))
            && Entries(Drain(nodes, lists, "", size, 0, false)) == Flatten(lists)
            && (id in Entries(Drain(nodes, lists, "", size, 0, false)) <==>
                  exists name, path :: ListedVolume(conf, fleet, name, path) && id == VolumeId(name, path))
  {
    VolumeCatalog(conf, index, fleet);
    var nodes := Sorted(conf.Keys);
    var lists := VolumeLists(conf, index, fleet, nodes);
    DrainComplete(nodes, lists, size, false);
    DrainChained(nodes, lists, "", size, 0, false);
    VolumeMembers(conf, index, fleet, nodes, id);
  }

  lemma VolumeCatalog(conf: NodeMap, index: ResolverMap, fleet: Fleet)
    requires Pageable(conf, index)
    requires forall name :: name in conf ==> |EntryVolumes(conf, index, fleet, name)| <= 0x8000_0000
    ensures Known(conf, index, Sorted(conf.Keys))
    ensures Catalog(Sorted(conf.Keys), VolumeLists(conf, index, fleet, Sorted(conf.Keys)))
  {
    SortedNames(conf, index);
    var nodes := Sorted(conf.Keys);
    var lists := VolumeLists(conf, index, fleet, nodes);
    forall i | 0 <= i < |lists| ensures |lists[i]| <= 0x8000_0000 {
      assert lists[i] == EntryVolumes(conf, index, fleet, nodes[i]);
    }
  }

  lemma IdsOfPaths(name: string, paths: seq<string>, id: string)
    ensures id in VolumeIds(name, paths) <==> exists path :: path in paths && id == VolumeId(name, path)
  {
    var ids := VolumeIds(name, paths);
    if id in ids {
      var k :| 0 <= k < |ids| && ids[k] == id;
      assert paths[k] in paths;
    }
    if path :| path in paths && id == VolumeId(name, path) {
      var k :| 0 <= k < |paths| && paths[k] == path;
      assert ids[k] == id;
    }
  }

  lemma VolumeMembers(conf: NodeMap, index: ResolverMap, fleet: Fleet, nodes: seq<string>, id: string)
    requires Agrees(conf, index) && Known(conf, index, nodes) && forall name :: name in nodes <==> name in conf
    ensures id in Flatten(VolumeLists(conf, index, fleet, nodes)) <==>
              exists name, path :: ListedVolume(conf, fleet, name, path) && id == VolumeId(name, path)
  {
    var lists := VolumeLists(conf, index, fleet, nodes);
    FlattenMembers(lists, id);
    if i :| 0 <= i < |lists| && id in lists[i] {
      EntryVolumeMembers(conf, index, fleet, nodes[i], id);
    }
    if name, path :| ListedVolume(conf, fleet, name, path) && id == VolumeId(name, path) {
      EntryVolumeMembers(conf, index, fleet, name, id);
      var i :| 0 <= i < |nodes| && nodes[i] == name;
      assert lists[i] == EntryVolumes(conf, index, fleet, name);
    }
  }

  lemma EntryVolumeMembers(conf: NodeMap, index: ResolverMap, fleet: Fleet, name: string, id: string)
    requires Agrees(conf, index) && name in conf
    ensures id in EntryVolumes(conf, index, fleet, name) <==>
              exists path :: ListedVolume(conf, fleet, name, path) && id == VolumeId(name, path)
  {
    var addresses := Addresses(conf, name);
    forall addr | addr in addresses ensures Reached(index[name], addr) {
      AgreedAddressesReached(conf, index, name, addr);
    }
    PathsOverMembers(fleet, index[name], addresses);
    var paths := PathsOver(fleet, index[name], addresses);
    assert forall path :: path in paths <==> ListedVolume(conf, fleet, name, path);
    IdsOfPaths(name, paths, id);
  }

  /** The snapshot listing is complete in the same way when no entry has more visible
      snapshots than an unlimited page: what is listed is exactly the snapshots with a
      creator on datasets below each entry's default dataset. */
  lemma SnapshotListingComplete(conf: NodeMap, index: ResolverMap, fleet: Fleet, size: nat -> nat, entry: CsiSnapshot)
    requires Pageable(conf, index)
    requires forall name :: name in conf ==> |EntrySnaps(conf, index, fleet, name)| <= UNLIMITED
    ensures Known(conf, index, Sorted(conf.Keys))
    ensures var nodes := Sorted(conf.Keys); var lists := SnapLists(conf, index, fleet, nodes);
            && Catalog(nodes, lists) && AcceptedToken("", nodes)
            && Chained(nodes, lists, "", size, 0, true, Drain(nodes, lists, "", size, 0, true))
            && Entries(Drain(nodes, lists, "", size, 0, true)) == Flatten(lists)
            && (entry in Entries(Drain(nodes, lists, "", size, 0, true)) <==>
                  exists name, s :: ListedSnapshot(conf, fleet, name, s) && entry == ConvertSnap(s, name))
  {
    SnapCatalog(conf, index, fleet);
    var nodes := Sorted(conf.Keys);
    var lists := SnapLists(conf, index, fleet, nodes);
    DrainComplete(nodes, lists, size, true);
    DrainChained(nodes, lists, "", size, 0, true);
    SnapshotMembers(conf, index, fleet, nodes, entry);
  }

  lemma SnapCatalog(conf: NodeMap, index: ResolverMap, fleet: Fleet)
    requires Pageable(conf, index)
    requires forall name :: name in conf ==> |EntrySnaps(conf, index, fleet, name)| <= UNLIMITED
    ensures Known(conf, index, Sorted(conf.Keys))
    ensures var lists := SnapLists(conf, index, fleet, Sorted(conf.Keys));
            Catalog(Sorted(conf.Keys), lists) && Fits(lists)
  {
    SortedNames(conf, index);
    var nodes := Sorted(conf.Keys);
    var lists := SnapLists(conf, index, fleet, nodes);
    forall i | 0 <= i < |lists| ensures |lists[i]| <= UNLIMITED {
      assert lists[i] == EntrySnaps(conf, index, fleet, nodes[i]);
    }
  }

  lemma SnapshotMembers(conf: NodeMap, index: ResolverMap, fleet: Fleet, nodes: seq<string>, entry: CsiSnapshot)
    requires Agrees(conf, index) && Known(conf, index, nodes) && forall name :: name in nodes <==> name in conf
    ensures entry in Flatten(SnapLists(conf, index, fleet, nodes)) <==>
              exists name, s :: ListedSnapshot(conf, fleet, name, s) && entry == ConvertSnap(s, name)
  {
    var lists := SnapLists(conf, index, fleet, nodes);
    FlattenMembers(lists, entry);
    if i :| 0 <= i < |lists| && entry in lists[i] {
      EntrySnapMembers(conf, index, fleet, nodes[i], entry);
    }
    if name, s :| ListedSnapshot(conf, fleet, name, s) && entry == ConvertSnap(s, name) {
      EntrySnapMembers(conf, index, fleet, name, entry);
      var i :| 0 <= i < |nodes| && nodes[i] == name;
      assert lists[i] == EntrySnaps(conf, index, fleet, name);
    }
  }

  lemma EntrySnapMembers(conf: NodeMap, index: ResolverMap, fleet: Fleet, name: string, entry: CsiSnapshot)
    requires Agrees(conf, index) && name in conf
    ensures entry in EntrySnaps(conf, index, fleet, name) <==>
              exists s :: ListedSnapshot(conf, fleet, name, s) && entry == ConvertSnap(s, name)
  {
    var addresses, top := Addresses(conf, name), conf[name].DefaultDataset;
    forall addr | addr in addresses ensures Reached(index[name], addr) {
      AgreedAddressesReached(conf, index, name, addr);
    }
    var snaps := SnapsOver(fleet, index[name], addresses, top);
    var entries := EntrySnaps(conf, index, fleet, name);
    if entry in entries {
      var k :| 0 <= k < |entries| && entries[k] == entry;
      assert snaps[k] in snaps;
      SnapsOverMembers(fleet, index[name], addresses, top, snaps[k]);
      assert ListedSnapshot(conf, fleet, name, snaps[k]);
    }
    if s :| ListedSnapshot(conf, fleet, name, s) && entry == ConvertSnap(s, name) {
      SnapsOverMembers(fleet, index[name], addresses, top, s);
      var k :| 0 <= k < |snaps| && snaps[k] == s;
      assert entries[k] == entry;
    }
  }

  /* ---------------------------------------------------------------- listed and created */

  lemma ListedNode(conf: NodeMap, index: ResolverMap, fleet: Fleet, name: string, path: string, addr: string)
    requires Agrees(conf, index) && name in conf && addr in Addresses(conf, name) && Hosts(fleet, addr, path)
    requires PoolsApart(index[name], fleet) && path != ""
    ensures ResolveOn(index[name], fleet, path) == Done(addr)
  {
    AgreedAddressesReached(conf, index, name, addr);
    HomedResolves(index[name], fleet, addr, path);
  }

  /** A listed snapshot is found by its id: looking it up gives the very entry of the list. */
  lemma ListedSnapshotFound(conf: NodeMap, index: ResolverMap, fleet: Fleet, name: string, s: Snapshot, at: Resolved)
    requires Agrees(conf, index) && ListedSnapshot(conf, fleet, name, s) && PoolsApart(index[name], fleet)
    requires name != "" && '@' !in name && '@' !in s.Path && '@' !in s.Name && ':' !in name && ':' !in s.Path
    ensures var id := ConvertSnap(s, name).id;
            && SnapTargeted(id) && SnapIdParams(id) == Params(s.Path, "", name)
            && ConvertSnap(s, name)
               == CsiSnapshot(name + ":" + s.Path + "@" + s.Name, name + ":" + s.Path, s.CreationTime)
            && (Answers(conf, index, fleet, SnapIdParams(id), at) ==>
                  SingleReply(fleet, at, SnapIdParams(id).datasetPath, SplitSnapshotId(id).value.1)
                  == Ok([ConvertSnap(s, name)]))
  {
    SnapshotIdRoundTrip(name, s.Path, s.Name);
    var addr :| addr in Addresses(conf, name) && addr in fleet && Carries(fleet[addr], conf[name].DefaultDataset, s);
    ListedNode(conf, index, fleet, name, s.Path, addr);
    SnapPathParts(fleet, addr, s.Path, s.Name);
  }

  lemma SameVolume(a: string, x: string, b: string, y: string)
    requires ':' !in a && ':' !in b && VolumeId(a, x) == VolumeId(b, y)
    ensures a == b && x == y
  {
    if a != b {
      IdsDiffer(a, x, b, y);
    }
    assert VolumeId(a, x)[|a| + 1..] == x && VolumeId(b, y)[|b| + 1..] == y;
  }

  /** The id of a created volume is listed exactly when the driver lists its path. */
  lemma CreatedIsListed(conf: NodeMap, index: ResolverMap, fleet: Fleet, p: Params, t: Target, req: CreateRequest,
                        zone: string, m: Moment, size: nat -> nat)
    requires Pageable(conf, index) && Sound(conf, index, fleet, p, t)
    requires CreateOn(conf, fleet, t, req, zone, m).0.Ok?
    requires forall name :: name in conf ==>
               |EntryVolumes(conf, index, CreateOn(conf, fleet, t, req, zone, m).1, name)| <= 0x8000_0000
    ensures var (r, after) := CreateOn(conf, fleet, t, req, zone, m);
            var nodes := Sorted(conf.Keys);
            && Known(conf, index, nodes) && Catalog(nodes, VolumeLists(conf, index, after, nodes))
            && AcceptedToken("", nodes)
            && (r.value.id in Entries(Drain(nodes, VolumeLists(conf, index, after, nodes), "", size, 0, false))
                <==> Usable(PathOf(t, req)))
  {
    var (r, after) := CreateOn(conf, fleet, t, req, zone, m);
    var path := PathOf(t, req);
    CreatedIsThere(conf, fleet, t, req, zone, m);
    VolumeListingComplete(conf, index, after, size, r.value.id);
    SoundAddress(conf, index, fleet, p, t);
    if Usable(path) {
      assert ListedVolume(conf, after, t.configName, path);
    }
    if name, other :| ListedVolume(conf, after, name, other) && r.value.id == VolumeId(name, other) {
      SameVolume(name, other, t.configName, path);
    }
  }

  lemma SoundAddress(conf: NodeMap, index: ResolverMap, fleet: Fleet, p: Params, t: Target)
    requires Agrees(conf, index) && Sound(conf, index, fleet, p, t)
    ensures t.configName in conf && t.addr in Addresses(conf, t.configName)
  {
    var i :| 0 <= i < |index[t.configName].Nodes| && index[t.configName].Nodes[i].Address == t.addr;
    assert Addresses(conf, t.configName)[i] == t.addr;
  }

  /* ---------------------------------------------------------------- the snapshots of one volume */

  /** The listed form of a volume's snapshot that somebody created. */
  ghost predicate ListsSnapshot(fleet: Fleet, addr: string, entry: string, path: string, name: string, e: CsiSnapshot) {
    && Hosts(fleet, addr, path) && name in fleet[addr].datasets[path].snaps
    && fleet[addr].datasets[path].snaps[name].createdBy != ""
    && e == CsiSnapshot(entry + ":" + path + "@" + name, entry + ":" + path,
                        fleet[addr].datasets[path].snaps[name].created)
  }

  lemma ConvertedMembers(snaps: seq<Snapshot>, entry: string, e: CsiSnapshot)
    ensures e in ConvertAll(snaps, entry) <==> exists s :: s in snaps && e == ConvertSnap(s, entry)
  {
    var list := ConvertAll(snaps, entry);
    if e in list {
      var k :| 0 <= k < |list| && list[k] == e;
      assert snaps[k] in snaps;
    }
    if s :| s in snaps && e == ConvertSnap(s, entry) {
      var k :| 0 <= k < |snaps| && snaps[k] == s;
      assert list[k] == e;
    }
  }

  /** What a page shows is visible, and without token and limit everything visible is shown. */
  lemma PageMembers(snaps: seq<Snapshot>, token: string, max: int, s: Snapshot)
    ensures s in PageOf(snaps, token, max).entries ==> s in snaps && s.CreatedBy != ""
    ensures token == "" && max == 0 ==> (s in PageOf(snaps, token, max).entries <==> s in snaps && s.CreatedBy != "")
  {
    var start := StartOf(snaps, token);
    var end := EndOf(snaps, start, 0, max).end;
    VisibleMembers(snaps[start..end], s);
    if token == "" && max == 0 {
      NoLimitNoEnd(snaps, 0, 0);
      assert snaps[start..end] == snaps;
    }
  }

  lemma SnapshotsOfVolume(fleet: Fleet, addr: string, entry: string, path: string, snaps: seq<Snapshot>, e: CsiSnapshot)
    requires Hosts(fleet, addr, path)
    requires forall s :: s in snaps <==> s in SnapsOf(fleet[addr], path) && s.CreatedBy != ""
    ensures e in ConvertAll(snaps, entry) <==> exists name :: ListsSnapshot(fleet, addr, entry, path, name, e)
  {
    ConvertedMembers(snaps, entry, e);
    if s :| s in snaps && e == ConvertSnap(s, entry) {
      SnapsOfMember(fleet[addr], path, s);
      assert ListsSnapshot(fleet, addr, entry, path, s.Name, e);
    }
    if name :| ListsSnapshot(fleet, addr, entry, path, name, e) {
      var s := Shown(path, name, fleet[addr].datasets[path].snaps[name]);
      SnapsOfMember(fleet[addr], path, s);
      assert s in snaps && e == ConvertSnap(s, entry);
    }
  }

  /** A listing by the volume id "entry:path" goes to that entry only, to its first node that
      has the volume, and shows nothing but that volume's snapshots; without token and limit it
      shows all of them that somebody created. */
  lemma VolumeSnapshotsListed(conf: NodeMap, index: ResolverMap, fleet: Fleet, entry: string, path: string,
                              token: string, max: int, r: Result<Page<CsiSnapshot>>, at: Resolved, e: CsiSnapshot)
    requires entry != "" && ':' !in entry && ':' !in path && path != ""
    requires VolumeSnapsReply(conf, index, fleet, entry + ":" + path, token, max, r, at)
    ensures r.Ok? && (at.Unresolved? ==> r.value == Page([], ""))
    ensures at.Found? ==>
              && at.target.configName == entry && at.target.datasetPath == path && entry in index
              && FirstHost(index[entry], fleet, path, at.target.addr)
              && (token != "" && token != path ==> r.value == Page([], ""))
              && (e in r.value.entries ==> exists name :: ListsSnapshot(fleet, at.target.addr, entry, path, name, e))
              && (token == "" && max == 0 ==>
                    (e in r.value.entries <==>
                       exists name :: ListsSnapshot(fleet, at.target.addr, entry, path, name, e)))
  {
    SplitCons(entry, ':', path);
    SplitNone(path, ':');
    assert DsSnapParams(entry + ":" + path) == Params(path, "", entry);
    if at.Found? {
      var t := at.target;
      FoundIsSound(conf, index, fleet, Params(path, "", entry), t);
      FirstHostIsNode(index[entry], fleet, path, t.addr);
      ShownOfVolume(fleet, t.addr, entry, path, token, max, e);
      if token != "" && token != path {
        UnknownToken(SnapsOf(fleet[t.addr], path), token, max);
      }
    }
  }

  lemma ShownOfVolume(fleet: Fleet, addr: string, entry: string, path: string, token: string, max: int, e: CsiSnapshot)
    requires Hosts(fleet, addr, path)
    ensures var shown := PageOf(SnapsOf(fleet[addr], path), token, max).entries;
            && (e in ConvertAll(shown, entry) ==> exists name :: ListsSnapshot(fleet, addr, entry, path, name, e))
            && (token == "" && max == 0 ==>
                  (e in ConvertAll(shown, entry) <==> exists name :: ListsSnapshot(fleet, addr, entry, path, name, e)))
  {
    var all := SnapsOf(fleet[addr], path);
    var shown := PageOf(all, token, max).entries;
    forall s ensures s in shown ==> s in all && s.CreatedBy != "" {
      PageMembers(all, token, max, s);
    }
    ConvertedMembers(shown, entry, e);
    var visible := Visible(all);
    forall s ensures s in visible <==> s in all && s.CreatedBy != "" {
      VisibleMembers(all, s);
    }
    SnapshotsOfVolume(fleet, addr, entry, path, visible, e);
    ConvertedMembers(visible, entry, e);
    if token == "" && max == 0 {
      forall s ensures s in shown <==> s in visible {
        PageMembers(all, token, max, s);
      }
    }
  }

  /** The id that a create request returned leads such a listing to the new volume. */
  lemma CreatedVolumeListed(conf: NodeMap, index: ResolverMap, fleet: Fleet, p: Params, t: Target, req: CreateRequest,
                            zone: string, m: Moment, token: string, max: int,
                            q: Result<Page<CsiSnapshot>>, at: Resolved)
    requires Sound(conf, index, fleet, p, t) && PoolsApart(index[t.configName], fleet)
    requires CreateOn(conf, fleet, t, req, zone, m).0.Ok?
    requires t.configName != "" && ':' !in t.configName && ':' !in PathOf(t, req)
    requires var (r, after) := CreateOn(conf, fleet, t, req, zone, m);
             VolumeSnapsReply(conf, index, after, r.value.id, token, max, q, at)
    ensures at == Found(Target(t.datasetPath + "/" + req.name, t.addr, t.configName))
  {
    var (r, after) := CreateOn(conf, fleet, t, req, zone, m);
    var path := PathOf(t, req);
    CreatedIsThere(conf, fleet, t, req, zone, m);
    assert r.value.id == t.configName + ":" + path;
    SplitCons(t.configName, ':', path);
    SplitNone(path, ':');
    FirstHostIsNode(index[t.configName], fleet, t.datasetPath, t.addr);
    CreateAddsOnly(conf, fleet, t, req, zone, m);
    AddsKeepsPools(index[t.configName], after, fleet, t.addr, t.datasetPath, req.name);
    NewVolumeResolves(index[t.configName], after, t.addr, t.datasetPath, req.name);
  }

  /* ---------------------------------------------------------------- nothing listed twice */

  ghost predicate Once<T>(s: seq<T>) { forall i, j :: 0 <= i < j < |s| ==> s[i] != s[j] }

  lemma OnceConcat<T>(a: seq<T>, b: seq<T>)
    requires Once(a) && Once(b) && forall x :: x in a ==> x !in b
    ensures Once(a + b)
  {
    forall i, j | 0 <= i < j < |a + b| ensures (a + b)[i] != (a + b)[j] {
      if i < |a| <= j {
        assert a[i] in a && b[j - |a|] in b;
      }
    }
  }

  lemma {:induction false} OnceFiltered(paths: seq<string>)
    requires Once(paths)
    ensures Once(Filtered(paths))
  {
    if paths != [] {
      OnceFiltered(paths[1..]);
      FilteredMembers(paths[1..]);
      assert paths[0] !in paths[1..];
      OnceConcat([paths[0]], Filtered(paths[1..]));
    }
  }

  lemma OnceUsable(node: Node)
    ensures Once(UsablePaths(node))
  {
    SortedIsOrder(node.datasets.Keys);
    OnceFiltered(Sorted(node.datasets.Keys));
  }

  /** A dataset is on one of several nodes with pools of their own. */
  lemma OneHost(resolver: Resolver, fleet: Fleet, a: string, b: string, path: string)
    requires PoolsApart(resolver, fleet) && HasNode(resolver, a) && HasNode(resolver, b)
    requires Hosts(fleet, a, path) && Hosts(fleet, b, path)
    ensures a == b
  {
    assert a != b ==> PoolOf(path) != PoolOf(path);
  }

  ghost predicate AllReached(resolver: Resolver, addresses: seq<string>) {
    forall addr :: addr in addresses ==> Reached(resolver, addr)
  }

  /** What the last address lists none of the others does. */
  lemma NotBefore(fleet: Fleet, resolver: Resolver, init: seq<string>, last: string, p: string)
    requires PoolsApart(resolver, fleet) && AllReached(resolver, init) && Reached(resolver, last) && last !in init
    requires p in PathsOver(fleet, resolver, init)
    ensures p !in PathsAt(fleet, resolver, last)
  {
    PathsOverMembers(fleet, resolver, init);
    var addr :| addr in init && addr in fleet && p in fleet[addr].datasets && Usable(p);
    if last in fleet && p in UsablePaths(fleet[last]) {
      UsableListed(fleet[last]);
      OneHost(resolver, fleet, addr, last, p);
    }
  }

  lemma OnceAt(fleet: Fleet, resolver: Resolver, addr: string)
    ensures Once(PathsAt(fleet, resolver, addr))
  {
    if addr in fleet {
      OnceUsable(fleet[addr]);
    }
  }

  lemma {:induction false} OncePaths(fleet: Fleet, resolver: Resolver, addresses: seq<string>)
    requires Once(addresses) && PoolsApart(resolver, fleet) && AllReached(resolver, addresses)
    ensures Once(PathsOver(fleet, resolver, addresses))
    decreases |addresses|
  {
    if addresses != [] {
      var init, last := addresses[..|addresses| - 1], addresses[|addresses| - 1];
      OncePaths(fleet, resolver, init);
      OnceAt(fleet, resolver, last);
      forall p | p in PathsOver(fleet, resolver, init) ensures p !in PathsAt(fleet, resolver, last) {
        NotBefore(fleet, resolver, init, last, p);
      }
      OnceConcat(PathsOver(fleet, resolver, init), PathsAt(fleet, resolver, last));
    }
  }

  lemma {:induction false} OnceFlat<T>(lists: seq<seq<T>>)
    requires forall i :: 0 <= i < |lists| ==> Once(lists[i])
    requires forall i, j, x :: 0 <= i < j < |lists| && x in lists[i] ==> x !in lists[j]
    ensures Once(Flatten(lists))
  {
    if lists != [] {
      var rest := lists[1..];
      assert forall i :: 0 <= i < |rest| ==> rest[i] == lists[i + 1];
      OnceFlat(rest);
      forall x | x in lists[0] ensures x !in Flatten(rest) {
        FlattenMembers(rest, x);
      }
      OnceConcat(lists[0], Flatten(rest));
    }
  }

  /** An entry's addresses are different, and no pool is on two of them. */
  ghost predicate EntryApart(conf: NodeMap, index: ResolverMap, fleet: Fleet, name: string)
    requires name in conf && name in index
  {
    Once(Addresses(conf, name)) && PoolsApart(index[name], fleet)
  }

  lemma OnceEntry(conf: NodeMap, index: ResolverMap, fleet: Fleet, name: string)
    requires Agrees(conf, index) && name in conf && EntryApart(conf, index, fleet, name)
    ensures Once(EntryVolumes(conf, index, fleet, name))
  {
    var addresses := Addresses(conf, name);
    forall addr | addr in addresses ensures Reached(index[name], addr) {
      AgreedAddressesReached(conf, index, name, addr);
    }
    OncePaths(fleet, index[name], addresses);
    OnceIds(name, PathsOver(fleet, index[name], addresses));
  }

  lemma OnceIds(name: string, paths: seq<string>)
    requires Once(paths)
    ensures Once(VolumeIds(name, paths))
  {
    forall i, j | 0 <= i < j < |paths| ensures VolumeId(name, paths[i]) != VolumeId(name, paths[j]) {
      assert VolumeId(name, paths[i])[|name| + 1..] == paths[i];
      assert VolumeId(name, paths[j])[|name| + 1..] == paths[j];
    }
  }

  /** Whatever the page sizes, no volume id is listed twice. */
  lemma VolumesOnce(conf: NodeMap, index: ResolverMap, fleet: Fleet, size: nat -> nat)
    requires Pageable(conf, index) && forall name :: name in conf ==> EntryApart(conf, index, fleet, name)
    requires forall name :: name in conf ==> |EntryVolumes(conf, index, fleet, name)| <= 0x8000_0000
    ensures Known(conf, index, Sorted(conf.Keys))
    ensures var nodes := Sorted(conf.Keys); var lists := VolumeLists(conf, index, fleet, nodes);
            && Catalog(nodes, lists) && AcceptedToken("", nodes)
            && Once(Entries(Drain(nodes, lists, "", size, 0, false)))
  {
    VolumeCatalog(conf, index, fleet);
    var nodes := Sorted(conf.Keys);
    var lists := VolumeLists(conf, index, fleet, nodes);
    DrainComplete(nodes, lists, size, false);
    forall i | 0 <= i < |lists| ensures Once(lists[i]) {
      OnceEntry(conf, index, fleet, nodes[i]);
    }
    forall i, j, x | 0 <= i < j < |lists| && x in lists[i] ensures x !in lists[j] {
      EntryOfId(conf, index, fleet, nodes[i], x);
      EntryOfId(conf, index, fleet, nodes[j], x);
    }
    OnceFlat(lists);
  }

  /** A listed id starts with the name of its entry. */
  lemma EntryOfId(conf: NodeMap, index: ResolverMap, fleet: Fleet, name: string, id: string)
    requires name in conf && name in index && ':' !in name
    ensures id in EntryVolumes(conf, index, fleet, name) ==> Split(id, ':')[0] == name
  {
    var paths := PathsOver(fleet, index[name], Addresses(conf, name));
    IdsOfPaths(name, paths, id);
    if path :| path in paths && id == VolumeId(name, path) {
      SplitCons(name, ':', path);
    }
  }

  lemma OnceSnaps(node: Node, path: string)
    ensures Once(SnapsOf(node, path))
  {
    if path in node.datasets {
      SortedIsOrder(node.datasets[path].snaps.Keys);
      var names, snaps := Sorted(node.datasets[path].snaps.Keys), SnapsOf(node, path);
      forall i, j | 0 <= i < j < |snaps| ensures snaps[i] != snaps[j] {
        assert snaps[i].Name == names[i] && snaps[j].Name == names[j];
      }
    }
  }

  lemma {:induction false} OnceAll(node: Node, paths: seq<string>)
    requires Once(paths)
    ensures Once(SnapsOfAll(node, paths))
    decreases |paths|
  {
    if paths != [] {
      OnceSnaps(node, paths[0]);
      OnceAll(node, paths[1..]);
      forall s | s in SnapsOf(node, paths[0]) ensures s !in SnapsOfAll(node, paths[1..]) {
        SnapsOfMember(node, paths[0], s);
        SnapsOfAllMember(node, paths[1..], s);
        assert paths[0] !in paths[1..];
      }
      OnceConcat(SnapsOf(node, paths[0]), SnapsOfAll(node, paths[1..]));
    }
  }

  lemma {:induction false} OnceVisible(snaps: seq<Snapshot>)
    requires Once(snaps)
    ensures Once(Visible(snaps))
    decreases |snaps|
  {
    if snaps != [] {
      var init, last := snaps[..|snaps| - 1], snaps[|snaps| - 1];
      OnceVisible(init);
      forall s | s in Visible(init) ensures s != last {
        VisibleMembers(init, s);
      }
      OnceConcat(Visible(init), if last.CreatedBy == "" then [] else [last]);
    }
  }

  lemma {:induction false} OnceBelow(paths: seq<string>, top: string)
    requires Once(paths)
    ensures Once(Below(paths, top))
    decreases |paths|
  {
    if paths != [] {
      var init, last := paths[..|paths| - 1], paths[|paths| - 1];
      OnceBelow(init, top);
      BelowMembers(init, top);
      assert last !in init;
      OnceConcat(Below(init, top), if Under(last, top) then [last] else []);
    }
  }

  lemma OnceSnapsAt(fleet: Fleet, resolver: Resolver, addr: string, top: string)
    ensures Once(SnapsAt(fleet, resolver, addr, top))
  {
    if addr in fleet {
      OnceUsable(fleet[addr]);
      OnceBelow(UsablePaths(fleet[addr]), top);
      OnceAll(fleet[addr], Below(UsablePaths(fleet[addr]), top));
      OnceVisible(SnapsOfAll(fleet[addr], Below(UsablePaths(fleet[addr]), top)));
    }
  }

  lemma SnapNotBefore(fleet: Fleet, resolver: Resolver, init: seq<string>, last: string, top: string, s: Snapshot)
    requires PoolsApart(resolver, fleet) && AllReached(resolver, init) && Reached(resolver, last) && last !in init
    requires s in SnapsOver(fleet, resolver, init, top)
    ensures s !in SnapsAt(fleet, resolver, last, top)
  {
    SnapsOverMembers(fleet, resolver, init, top, s);
    var addr :| addr in init && addr in fleet && Carries(fleet[addr], top, s);
    if last in fleet && s in SnapsAt(fleet, resolver, last, top) {
      VisibleMembers(SnapsOfAll(fleet[last], Below(UsablePaths(fleet[last]), top)), s);
      ScannedSnaps(fleet[last], top, s);
      OneHost(resolver, fleet, addr, last, s.Path);
    }
  }

  lemma {:induction false} OnceSnapsOver(fleet: Fleet, resolver: Resolver, addresses: seq<string>, top: string)
    requires Once(addresses) && PoolsApart(resolver, fleet) && AllReached(resolver, addresses)
    ensures Once(SnapsOver(fleet, resolver, addresses, top))
    decreases |addresses|
  {
    if addresses != [] {
      var init, last := addresses[..|addresses| - 1], addresses[|addresses| - 1];
      OnceSnapsOver(fleet, resolver, init, top);
      OnceSnapsAt(fleet, resolver, last, top);
      forall s | s in SnapsOver(fleet, resolver, init, top) ensures s !in SnapsAt(fleet, resolver, last, top) {
        SnapNotBefore(fleet, resolver, init, last, top, s);
      }
      OnceConcat(SnapsOver(fleet, resolver, init, top), SnapsAt(fleet, resolver, last, top));
    }
  }

  /** Snapshots that differ although their listed forms agree differ in what is not listed. */
  lemma FormTells(a: Snapshot, b: Snapshot, entry: string)
    requires '@' !in a.Path && '@' !in b.Path && ConvertSnap(a, entry) == ConvertSnap(b, entry)
    ensures a.Path == b.Path && a.Name == b.Name
  {
    var x, y := VolumeId(entry, a.Path), VolumeId(entry, b.Path);
    assert x[|entry| + 1..] == a.Path && y[|entry| + 1..] == b.Path;
    assert (x + "@" + a.Name)[|x| + 1..] == a.Name && (y + "@" + b.Name)[|y| + 1..] == b.Name;
    assert ConvertSnap(a, entry).id == x + "@" + a.Name && ConvertSnap(b, entry).id == y + "@" + b.Name;
  }

  /** No dataset has the separator in its path. */
  ghost predicate PlainPaths(fleet: Fleet) { forall a, p :: Hosts(fleet, a, p) ==> '@' !in p }

  lemma OnceEntrySnaps(conf: NodeMap, index: ResolverMap, fleet: Fleet, name: string)
    requires Agrees(conf, index) && name in conf && EntryApart(conf, index, fleet, name) && PlainPaths(fleet)
    ensures Once(EntrySnaps(conf, index, fleet, name))
  {
    var addresses, top := Addresses(conf, name), conf[name].DefaultDataset;
    forall addr | addr in addresses ensures Reached(index[name], addr) {
      AgreedAddressesReached(conf, index, name, addr);
    }
    var snaps := SnapsOver(fleet, index[name], addresses, top);
    OnceSnapsOver(fleet, index[name], addresses, top);
    forall i, j | 0 <= i < j < |snaps| ensures ConvertSnap(snaps[i], name) != ConvertSnap(snaps[j], name) {
      if ConvertSnap(snaps[i], name) == ConvertSnap(snaps[j], name) {
        SameSnapshot(conf, index, fleet, name, snaps[i], snaps[j]);
      }
    }
  }

  lemma SameSnapshot(conf: NodeMap, index: ResolverMap, fleet: Fleet, name: string, a: Snapshot, b: Snapshot)
    requires Agrees(conf, index) && name in conf && EntryApart(conf, index, fleet, name) && PlainPaths(fleet)
    requires AllReached(index[name], Addresses(conf, name)) && ConvertSnap(a, name) == ConvertSnap(b, name)
    requires a in SnapsOver(fleet, index[name], Addresses(conf, name), conf[name].DefaultDataset)
    requires b in SnapsOver(fleet, index[name], Addresses(conf, name), conf[name].DefaultDataset)
    ensures a == b
  {
    var addresses, top := Addresses(conf, name), conf[name].DefaultDataset;
    SnapsOverMembers(fleet, index[name], addresses, top, a);
    SnapsOverMembers(fleet, index[name], addresses, top, b);
    var x :| x in addresses && x in fleet && Carries(fleet[x], top, a);
    var y :| y in addresses && y in fleet && Carries(fleet[y], top, b);
    assert Hosts(fleet, x, a.Path) && Hosts(fleet, y, b.Path);
    FormTells(a, b, name);
    OneHost(index[name], fleet, x, y, a.Path);
  }

  /** Nor is a snapshot. */
  lemma SnapshotsOnce(conf: NodeMap, index: ResolverMap, fleet: Fleet, size: nat -> nat)
    requires Pageable(conf, index) && forall name :: name in conf ==> EntryApart(conf, index, fleet, name)
    requires PlainPaths(fleet) && forall name :: name in conf ==> |EntrySnaps(conf, index, fleet, name)| <= UNLIMITED
    ensures Known(conf, index, Sorted(conf.Keys))
    ensures var nodes := Sorted(conf.Keys); var lists := SnapLists(conf, index, fleet, nodes);
            && Catalog(nodes, lists) && AcceptedToken("", nodes)
            && Once(Entries(Drain(nodes, lists, "", size, 0, true)))
  {
    SnapCatalog(conf, index, fleet);
    var nodes := Sorted(conf.Keys);
    var lists := SnapLists(conf, index, fleet, nodes);
    DrainComplete(nodes, lists, size, true);
    forall i | 0 <= i < |lists| ensures Once(lists[i]) {
      OnceEntrySnaps(conf, index, fleet, nodes[i]);
    }
    forall i, j, x | 0 <= i < j < |lists| && x in lists[i] ensures x !in lists[j] {
      EntryOfSnapshot(conf, index, fleet, nodes[i], x);
      EntryOfSnapshot(conf, index, fleet, nodes[j], x);
    }
    OnceFlat(lists);
  }

  lemma EntryOfSnapshot(conf: NodeMap, index: ResolverMap, fleet: Fleet, name: string, e: CsiSnapshot)
    requires name in conf && name in index && ':' !in name
    ensures e in EntrySnaps(conf, index, fleet, name) ==> Split(e.sourceVolumeId, ':')[0] == name
  {
    var snaps := SnapsOver(fleet, index[name], Addresses(conf, name), conf[name].DefaultDataset);
    ConvertedMembers(snaps, name, e);
    if s :| s in snaps && e == ConvertSnap(s, name) {
      SplitCons(name, ':', s.Path);
    }
  }
}
