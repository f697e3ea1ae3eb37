/** The provider operations: REST calls that change or list the appliances, and the
    resolvers that pick a provider. */
module Bsr {
  import opened Text
  import opened Storage
  import opened Configuration
  import Resolution

  /** The appliances behind the REST interface. */
  class Backend {
    var fleet: Fleet

    constructor (fleet: Fleet)
      ensures this.fleet == fleet
    {
      this.fleet := fleet;
    }

    function GetDataset(addr: string, path: string): Reply<DatasetInfo>
      reads this
    {
      Storage.GetDataset(fleet, addr, path)
    }

    function GetSnapshot(addr: string, snapPath: string): Reply<Snapshot>
      reads this
    {
      Storage.GetSnapshot(fleet, addr, snapPath)
    }

    /** All datasets the driver can use: the REST reply without the boot pool and
        without what is not below "global". */
    method GetDatasets(addr: string) returns (r: Reply<seq<DatasetInfo>>)
      ensures r.Done? <==> addr in fleet
      ensures r.Done? ==> Describes(fleet[addr], UsablePaths(fleet[addr]), r.value)
    {
      if addr !in fleet {
        return Failed(Other);
      }
      var node := fleet[addr];
      var paths := NamesInOrder(node.datasets.Keys);
      var datasets: seq<DatasetInfo> := [];
      var i := 0;
      assert paths[..0] == [];
      while i < |paths|
        invariant i <= |paths| && Describes(node, Filtered(paths[..i]), datasets)
      {
        var path := paths[i];
        FilteredNext(paths, i);
        i := i + 1;
        if HasPrefix(path, "bp") {
          continue;
        }
        var flds := SplitOnce(path, '/');
        if |flds| != 2 || !HasPrefix(flds[1], "global") {
          continue;
        }
        DescribesSnoc(node, Filtered(paths[..i - 1]), datasets, path);
        datasets := datasets + [Describe(node, path)];
      }
      assert paths[..i] == paths;
      return Done(datasets);
    }

    /** The snapshots of the named datasets; naming none is an error. */
    method GetSnapshots(addr: string, datasets: seq<string>) returns (r: Reply<seq<Snapshot>>)
      ensures r.Done? <==> datasets != [] && addr in fleet
      ensures r.Done? ==> r.value == SnapsOfAll(fleet[addr], datasets)
    {
      if |datasets| == 0 {
        return Failed(Other);
      }
      if addr !in fleet {
        return Failed(Other);
      }
      var node := fleet[addr];
      var snaps: seq<Snapshot> := [];
      var i := 0;
      assert datasets[0..] == datasets;
      while i < |datasets|
        invariant i <= |datasets|
        invariant snaps + SnapsOfAll(node, datasets[i..]) == SnapsOfAll(node, datasets)
      {
        var some := ListSnaps(node, datasets[i]);
        SnapsOfAllNext(node, datasets, i);
        Regroup(snaps, some, SnapsOfAll(node, datasets[i + 1..]));
        snaps := snaps + some;
        i := i + 1;
      }
      return Done(snaps);
    }

    static method ListSnaps(node: Node, path: string) returns (snaps: seq<Snapshot>)
      ensures snaps == SnapsOf(node, path)
    {
      if path !in node.datasets {
        return [];
      }
      var names := NamesInOrder(node.datasets[path].snaps.Keys);
      SortedMembers(node.datasets[path].snaps.Keys);
      snaps := ShowSnaps(path, node.datasets[path], names);
    }

    /** The data of the named snapshots of a dataset. */
    static method ShowSnaps(path: string, ds: Dataset, names: seq<string>) returns (snaps: seq<Snapshot>)
      requires forall i :: 0 <= i < |names| ==> names[i] in ds.snaps
      ensures snaps == ShownAll(path, ds, names)
    {
      snaps := [];
      var i := 0;
      while i < |names|
        invariant i == |snaps| <= |names|
        invariant forall k :: 0 <= k < i ==> snaps[k] == Shown(path, names[k], ds.snaps[names[k]])
      {
        snaps := snaps + [Shown(path, names[i], ds.snaps[names[i]])];
        i := i + 1;
      }
    }

    method CreateDataset(addr: string, path: string, refQuotaSize: int) returns (r: Reply<()>)
      modifies this
      ensures (r, fleet) == Storage.CreateDataset(old(fleet), addr, path, refQuotaSize)
      ensures r.Done? <==> path != "" && '@' !in path && addr in old(fleet) && !Hosts(old(fleet), addr, path)
      ensures r == Failed(Exists) <==> path != "" && '@' !in path && Hosts(old(fleet), addr, path)
      ensures r.Failed? ==> fleet == old(fleet)
      ensures r.Done? ==>
                && OnlyChanges(fleet, old(fleet), addr, path) && Hosts(fleet, addr, path)
                && fleet[addr].datasets[path] == Dataset("", if refQuotaSize > 0 then refQuotaSize else 0, None, map[])
    {
      var (reply, after) := Storage.CreateDataset(fleet, addr, path, refQuotaSize);
      r, fleet := reply, after;
    }

    method UpdateDataset(addr: string, path: string, refQuotaSize: int) returns (r: Reply<()>)
      modifies this
      ensures (r, fleet) == Storage.UpdateDataset(old(fleet), addr, path, refQuotaSize)
      ensures r.Done? <==> path != "" && Hosts(old(fleet), addr, path)
      ensures r.Failed? ==> fleet == old(fleet)
      ensures r.Done? ==>
                && OnlyChanges(fleet, old(fleet), addr, path) && Hosts(fleet, addr, path)
                && var was, now := old(fleet)[addr].datasets[path], fleet[addr].datasets[path];
                && now.quota == (if refQuotaSize > 0 then refQuotaSize else 0)
                && now.content == was.content && now.share == was.share && now.snaps == was.snaps
    {
      var (reply, after) := Storage.UpdateDataset(fleet, addr, path, refQuotaSize);
      r, fleet := reply, after;
    }

    method DestroyDataset(addr: string, path: string) returns (r: Reply<()>)
      modifies this
      ensures (r, fleet) == Storage.DestroyDataset(old(fleet), addr, path)
      ensures r.Done? <==> path != "" && Hosts(old(fleet), addr, path)
      ensures r == Failed(NotExist) <==> path != "" && addr in old(fleet) && !Hosts(old(fleet), addr, path)
      ensures r.Failed? ==> fleet == old(fleet)
      ensures r.Done? ==> OnlyChanges(fleet, old(fleet), addr, path) && !Hosts(fleet, addr, path)
    {
      var (reply, after) := Storage.DestroyDataset(fleet, addr, path);
      r, fleet := reply, after;
    }

    method CreateNfsShare(addr: string, path: string, nfsArgs: string) returns (r: Reply<()>)
      modifies this
      ensures (r, fleet) == Storage.CreateNfsShare(old(fleet), addr, path, nfsArgs)
      ensures r.Done? <==> path != "" && Hosts(old(fleet), addr, path)
      ensures r.Failed? ==> fleet == old(fleet)
      ensures r.Done? ==>
                && OnlyChanges(fleet, old(fleet), addr, path) && Hosts(fleet, addr, path)
                && var was, now := old(fleet)[addr].datasets[path], fleet[addr].datasets[path];
                && now.share == Some(if nfsArgs == "" then "anon=0,sec=sys" else "anon=0,sec=sys" + "," + nfsArgs)
                && now.content == was.content && now.quota == was.quota && now.snaps == was.snaps
    {
      var (reply, after) := Storage.CreateNfsShare(fleet, addr, path, nfsArgs);
      r, fleet := reply, after;
    }

    method CreateSnapshot(addr: string, path: string, name: string, user: string, time: int)
      returns (r: Reply<Snapshot>)
      modifies this
      ensures (r, fleet) == Storage.CreateSnapshot(old(fleet), addr, path, name, user, time)
      ensures r.Done? <==> path != "" && name != "" && '@' !in name && Hosts(old(fleet), addr, path)
                           && name !in old(fleet)[addr].datasets[path].snaps
      ensures r.Failed? ==> fleet == old(fleet)
      ensures r.Done? ==>
                && OnlyChanges(fleet, old(fleet), addr, path) && Hosts(fleet, addr, path)
                && var was, now := old(fleet)[addr].datasets[path], fleet[addr].datasets[path];
                && now.snaps == was.snaps[name := Snap(was.content, user, time)]
                && now.content == was.content && now.quota == was.quota && now.share == was.share
                && r.value.Path == path && r.value.Name == name && r.value.CreationTime == time
    {
      var (reply, after) := Storage.CreateSnapshot(fleet, addr, path, name, user, time);
      r, fleet := reply, after;
    }

    method DestroySnapshot(addr: string, snapPath: string) returns (r: Reply<()>)
      modifies this
      ensures (r, fleet) == Storage.DestroySnapshot(old(fleet), addr, snapPath)
      ensures r.Done? <==> SnapshotAt(old(fleet), addr, snapPath).Some?
      ensures r == Failed(NotExist) <==> addr in old(fleet) && SnapshotAt(old(fleet), addr, snapPath).None?
      ensures r.Failed? ==> fleet == old(fleet)
      ensures r.Done? ==>
                var (path, name) := SnapshotAt(old(fleet), addr, snapPath).value;
                && OnlyChanges(fleet, old(fleet), addr, path) && Hosts(fleet, addr, path)
                && var was, now := old(fleet)[addr].datasets[path], fleet[addr].datasets[path];
                && now.snaps == was.snaps - {name}
                && now.content == was.content && now.quota == was.quota && now.share == was.share
    {
      var (reply, after) := Storage.DestroySnapshot(fleet, addr, snapPath);
      r, fleet := reply, after;
    }

    method CloneSnapshot(addr: string, src: string, target: string, refQuotaSize: int) returns (r: Reply<()>)
      modifies this
      ensures (r, fleet) == Storage.CloneSnapshot(old(fleet), addr, src, target, refQuotaSize)
      ensures r.Done? <==> && src != "" && target != "" && '@' !in target && addr in old(fleet)
                           && !Hosts(old(fleet), addr, target) && CloneSource(old(fleet), addr, src).Some?
                           && PoolOf(CloneSource(old(fleet), addr, src).value.0) == PoolOf(target)
      ensures r == Failed(Exists) <==> src != "" && target != "" && '@' !in target && Hosts(old(fleet), addr, target)
      ensures r.Failed? ==> fleet == old(fleet)
      ensures r.Done? ==>
                && OnlyChanges(fleet, old(fleet), addr, target) && Hosts(fleet, addr, target)
                && fleet[addr].datasets[target] == Dataset(CloneSource(old(fleet), addr, src).value.1,
                                                           if refQuotaSize > 0 then refQuotaSize else 0, None, map[])
    {
      var (reply, after) := Storage.CloneSnapshot(fleet, addr, src, target, refQuotaSize);
      r, fleet := reply, after;
    }
  }

  lemma SnapsOfAllNext(node: Node, datasets: seq<string>, i: nat)
    requires i < |datasets|
    ensures SnapsOfAll(node, datasets[i..]) == SnapsOf(node, datasets[i]) + SnapsOfAll(node, datasets[i + 1..])
  {
    assert datasets[i..][0] == datasets[i] && datasets[i..][1..] == datasets[i + 1..];
  }

  lemma Regroup<T>(a: seq<T>, b: seq<T>, c: seq<T>)
    ensures a + (b + c) == (a + b) + c
  {
  }

  /** The data of these paths, in this order. */
  predicate Describes(node: Node, paths: seq<string>, datasets: seq<DatasetInfo>) {
    |datasets| == |paths|
    && forall k :: 0 <= k < |paths| ==> paths[k] in node.datasets && datasets[k] == Describe(node, paths[k])
  }

  lemma DescribesSnoc(node: Node, paths: seq<string>, datasets: seq<DatasetInfo>, path: string)
    requires Describes(node, paths, datasets) && path in node.datasets
    ensures Describes(node, paths + [path], datasets + [Describe(node, path)])
  {
  }

  lemma FilteredNext(paths: seq<string>, i: nat)
    requires i < |paths|
    ensures Filtered(paths[..i + 1])
            == if Usable(paths[i]) then Filtered(paths[..i]) + [paths[i]] else Filtered(paths[..i])
  {
    FilteredSnoc(paths[..i], paths[i]);
    assert paths[..i + 1] == paths[..i] + [paths[i]];
  }

  lemma {:induction false} FilteredSnoc(paths: seq<string>, path: string)
    ensures Filtered(paths + [path]) == Filtered(paths) + if Usable(path) then [path] else []
  {
    if paths == [] {
      assert paths + [path] == [path] && [path][1..] == [];
    } else {
      FilteredSnoc(paths[1..], path);
      assert (paths + [path])[1..] == paths[1..] + [path];
    }
  }

  /** Asks the nodes one after another for the dataset; the first that has it is the provider. */
  method Resolve(resolver: Resolver, backend: Backend, path: string) returns (r: Reply<string>)
    ensures r == Resolution.ResolveOn(resolver, backend.fleet, path)
  {
    if path == "" {
      return Failed(Other);
    }
    var err := Other;
    var i := 0;
    while i < |resolver.Nodes|
      invariant i <= |resolver.Nodes|
      invariant Resolution.Scan(resolver.Nodes[i..], backend.fleet, path, err)
                == Resolution.Scan(resolver.Nodes, backend.fleet, path, Other)
    {
      var node := resolver.Nodes[i];
      assert resolver.Nodes[i..][0] == node && resolver.Nodes[i..][1..] == resolver.Nodes[i + 1..];
      match backend.GetDataset(node.Address, path)
      case Done(_) => return Done(node.Address);
      case Failed(e) => err := e;
      i := i + 1;
    }
    return Failed(err);
  }

  /** The resolver has a node with this address. */
  predicate Reached(resolver: Resolver, addr: string) { addr != "" && HasNode(resolver, addr) }

  method ResolveByAddress(resolver: Resolver, addr: string) returns (r: Option<Provider>)
    ensures r.Some? <==> Reached(resolver, addr)
    ensures r.Some? ==> r.value in resolver.Nodes && r.value.Address == addr
  {
    if addr == "" {
      return None;
    }
    var i := 0;
    while i < |resolver.Nodes|
      invariant i <= |resolver.Nodes|
      invariant forall k :: 0 <= k < i ==> resolver.Nodes[k].Address != addr
    {
      if resolver.Nodes[i].Address == addr {
        return Some(resolver.Nodes[i]);
      }
      i := i + 1;
    }
    return None;
  }

  /** With a resolver map that agrees with the configuration, looking a provider up by
      one of its entry's addresses never fails. */
  lemma AgreedAddressesReached(conf: NodeMap, index: ResolverMap, name: string, addr: string)
    requires Agrees(conf, index) && name in conf && addr in Split(conf[name].Address, ',')
    ensures Reached(index[name], addr)
  {
    var addresses := Split(conf[name].Address, ',');
    var i :| 0 <= i < |addresses| && addresses[i] == addr;
    assert index[name].Nodes[i] == ProviderOf(ArgsOf(conf[name]), addr);
    assert ProviderOk(addresses[i]);
  }
}
