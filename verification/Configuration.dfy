/** The driver's configuration file, the resolvers built from it, and when they agree. */
module Configuration {
  import opened Text

  /** One entry of the configuration: a standalone node or a cluster. */
  datatype BsrData = BsrData(Address: string, Username: string, Password: string, DefaultDataset: string,
                             DefaultMountFsType: string, Zone: string, MountPointPermissions: string,
                             InsecureSkipVerify: Option<bool>)

  type NodeMap = map<string, BsrData>

  /** One node behind a resolver. Providers and resolvers never change once made. */
  datatype Provider = Provider(Address: string, Username: string, Password: string, InsecureSkipVerify: bool)

  datatype Resolver = Resolver(Nodes: seq<Provider>)

  type ResolverMap = map<string, Resolver>

  /** What reading the configuration text comes to. Parsing may store entries and fail all the same. */
  datatype Content = Unreadable | Malformed(nodes: NodeMap) | Parsed(nodes: NodeMap)

  /* ---------------------------------------------------------------- validation */

  /** https://host:port with one to five port digits. */
  predicate ValidAddress(s: string) {
    HasPrefix(s, "https://")
    && var p := Split(s[8..], ':');
    |p| == 2 && p[0] != "" && 1 <= |p[1]| <= 5 && AllDigits(p[1])
  }

  predicate ValidEntry(d: BsrData) {
    && d.Address != ""
    && (forall i :: 0 <= i < |Split(d.Address, ',')| ==> ValidAddress(Split(d.Address, ',')[i]))
    && d.Username != "" && d.Password != ""
    && d.DefaultMountFsType in {"", "nfs", "cifs"}
  }

  function WithDefaults(d: BsrData): BsrData {
    if d.InsecureSkipVerify.None? then d.(InsecureSkipVerify := Some(true)) else d
  }

  function AllWithDefaults(nodes: NodeMap): NodeMap { map name | name in nodes :: WithDefaults(nodes[name]) }

  /** Same names with the same addresses, default datasets and zones. */
  ghost predicate SameEntries(a: NodeMap, b: NodeMap) {
    a.Keys == b.Keys && forall name :: name in a ==> WithDefaults(a[name]) == WithDefaults(b[name])
  }

  /** Validation has dealt with all entries but the rest. */
  ghost predicate Checked(now: NodeMap, was: NodeMap, rest: set<string>) {
    && now.Keys == was.Keys && rest <= was.Keys
    && forall name :: name in was ==>
         if name in rest then now[name] == was[name] else now[name] == WithDefaults(was[name]) && ValidEntry(was[name])
  }

  lemma CheckedNext(now: NodeMap, was: NodeMap, rest: set<string>, name: string)
    requires Checked(now, was, rest) && name in rest
    ensures now[name] == was[name]
    ensures var next := if was[name].InsecureSkipVerify.None? then now[name := WithDefaults(was[name])] else now;
            && SameEntries(next, was)
            && (ValidEntry(was[name]) ==> Checked(next, was, rest - {name}))
            && (!ValidEntry(was[name]) ==> !AllValid(was))
  {
  }

  lemma CheckedAll(now: NodeMap, was: NodeMap)
    requires Checked(now, was, {})
    ensures now == AllWithDefaults(was) && AllValid(was) && SameEntries(now, was)
  {
  }

  predicate AllValid(nodes: NodeMap) { forall name | name in nodes :: ValidEntry(nodes[name]) }

  class Config {
    var NodeMap: NodeMap
    const filePath: string
    var lastModTime: int
    var temporary: bool

    constructor (filePath: string, modTime: int)
      ensures this.filePath == filePath && NodeMap == map[] && lastModTime == modTime && !temporary
    {
      this.filePath := filePath;
      NodeMap, lastModTime, temporary := map[], modTime, false;
    }

    function LookupNode(name: string): (r: Option<BsrData>)
      reads this
      ensures r.Some? <==> name in NodeMap
      ensures r.Some? ==> r.value == NodeMap[name]
    {
      if name in NodeMap then Some(NodeMap[name]) else None
    }

    /** The names of the entries in sorted order. */
    method NodeNames() returns (nodes: seq<string>)
      ensures nodes == Sorted(NodeMap.Keys)
    {
      nodes := NamesInOrder(NodeMap.Keys);
    }

    /** Checks the entries in any order and fills in what may be left out. */
    method Validate() returns (ok: bool)
      modifies `NodeMap
      ensures ok <==> AllValid(old(NodeMap))
      ensures ok ==> NodeMap == AllWithDefaults(old(NodeMap))
      ensures SameEntries(NodeMap, old(NodeMap))
    {
      var rest := NodeMap.Keys;
      while rest != {}
        invariant Checked(NodeMap, old(NodeMap), rest)
        decreases |rest|
      {
        var name :| name in rest;
        var data := NodeMap[name];
        CheckedNext(NodeMap, old(NodeMap), rest, name);
        rest := rest - {name};
        if data.InsecureSkipVerify.None? {
          NodeMap := NodeMap[name := data.(InsecureSkipVerify := Some(true))];
        }
        if !ValidEntry(data) {
          return false;
        }
      }
      CheckedAll(NodeMap, old(NodeMap));
      ok := true;
    }

    /** Reads the configuration again when the file or a secret says so. `stat` is the
        file's modification time, `content` what its text or the secret comes to. */
    method Refresh(secret: string, stat: Option<int>, content: Content) returns (changed: bool, ok: bool)
      modifies this
      ensures var was := ConfigState(filePath, old(NodeMap), old(lastModTime), old(temporary));
              var r := RefreshStep(was, secret, stat, content);
              && changed == r.changed && ok == r.ok && lastModTime == r.state.lastModTime
              && temporary == r.state.temporary
              && (if ok then NodeMap == r.state.nodes else SameEntries(NodeMap, r.state.nodes))
      ensures filePath == "" || stat.None? ==> !changed && !ok
      ensures filePath != "" && stat.Some? ==>
                && (changed <==> old(lastModTime) != stat.value || secret != "" || old(temporary))
                && (ok <==> (changed ==>
                               && content.Parsed?
                               && forall name :: name in content.nodes ==> ValidEntry(content.nodes[name])))
      ensures !changed ==>
                NodeMap == old(NodeMap) && lastModTime == old(lastModTime) && temporary == old(temporary)
      ensures changed ==> temporary == (secret != "")
      ensures changed ==> lastModTime == if secret != "" then old(lastModTime) else stat.value
      ensures changed && ok ==> NodeMap.Keys == content.nodes.Keys
    {
      if filePath == "" || stat.None? {
        return false, false;
      }
      changed := lastModTime != stat.value || |secret| > 0 || temporary;
      if changed {
        if |secret| > 0 {
          temporary := true;
        } else {
          lastModTime, temporary := stat.value, false;
        }
        if content.Unreadable? {
          return changed, false;
        }
        NodeMap := content.nodes;
        if content.Malformed? {
          return changed, false;
        }
        var valid := Validate();
        if !valid {
          return changed, false;
        }
      }
      ok := true;
    }
  }

  /* ---------------------------------------------------------------- refreshing, by value */

  datatype ConfigState = ConfigState(filePath: string, nodes: NodeMap, lastModTime: int, temporary: bool)

  datatype Refreshed = Refreshed(changed: bool, ok: bool, state: ConfigState)

  function RefreshStep(s: ConfigState, secret: string, stat: Option<int>, content: Content): Refreshed {
    if s.filePath == "" || stat.None? then Refreshed(false, false, s)
    else if s.lastModTime == stat.value && secret == "" && !s.temporary then Refreshed(false, true, s)
    else
      var s1 := if secret != "" then s.(temporary := true) else s.(lastModTime := stat.value, temporary := false);
      match content
      case Unreadable => Refreshed(true, false, s1)
      case Malformed(nodes) => Refreshed(true, false, s1.(nodes := nodes))
      case Parsed(nodes) =>
        if AllValid(nodes) then Refreshed(true, true, s1.(nodes := AllWithDefaults(nodes)))
        else Refreshed(true, false, s1.(nodes := nodes))
  }

  /* ---------------------------------------------------------------- resolvers */

  function LastIndexOf(s: string, c: char): (i: int)
    ensures -1 <= i < |s|
    ensures i >= 0 ==> s[i] == c
    ensures forall k :: i < k < |s| ==> s[k] != c
  {
    if s == [] then -1 else if s[|s| - 1] == c then |s| - 1 else LastIndexOf(s[..|s| - 1], c)
  }

  /** The checks made when a provider is created. */
  predicate ProviderOk(address: string) {
    && address != "" && HasPrefix(address, "https://")
    && var i := LastIndexOf(address, ':');
    i != -1 && ParseUint(address[i + 1..], 0x1_0000).Some?
  }

  /** What a resolver is made of. */
  datatype ResolverArgs = ResolverArgs(Address: string, Username: string, Password: string, InsecureSkipVerify: bool)

  function ArgsOf(d: BsrData): ResolverArgs {
    ResolverArgs(d.Address, d.Username, d.Password, WithDefaults(d).InsecureSkipVerify.value)
  }

  function ProviderOf(args: ResolverArgs, address: string): Provider {
    Provider(address, args.Username, args.Password, args.InsecureSkipVerify)
  }

  function ProvidersOf(args: ResolverArgs, addresses: seq<string>): (r: seq<Provider>)
    ensures |r| == |addresses| && forall i :: 0 <= i < |r| ==> r[i] == ProviderOf(args, addresses[i])
  {
    seq(|addresses|, i requires 0 <= i < |addresses| => ProviderOf(args, addresses[i]))
  }

  /** The resolver of an entry: one provider for each comma-separated address. */
  function ResolverOf(args: ResolverArgs): Resolver { Resolver(ProvidersOf(args, Split(args.Address, ','))) }

  /** One of the nodes has this address. */
  predicate HasNode(resolver: Resolver, addr: string) {
    exists i :: 0 <= i < |resolver.Nodes| && resolver.Nodes[i].Address == addr
  }

  predicate ResolverOk(address: string) {
    address != "" && forall i :: 0 <= i < |Split(address, ',')| ==> ProviderOk(Split(address, ',')[i])
  }

  method NewResolver(args: ResolverArgs) returns (r: Option<Resolver>)
    ensures r.Some? <==> ResolverOk(args.Address)
    ensures r.Some? ==> r.value == ResolverOf(args)
  {
    if args.Address == "" {
      return None;
    }
    var nodes: seq<Provider> := [];
    var addresses := Split(args.Address, ',');
    var i := 0;
    while i < |addresses|
      invariant i == |nodes| <= |addresses|
      invariant forall k :: 0 <= k < i ==> ProviderOk(addresses[k]) && nodes[k] == ProviderOf(args, addresses[k])
    {
      if !ProviderOk(addresses[i]) {
        return None;
      }
      nodes := nodes + [ProviderOf(args, addresses[i])];
      i := i + 1;
    }
    assert nodes == ProvidersOf(args, addresses);
    return Some(Resolver(nodes));
  }

  /** The resolver map of a configuration. */
  function ResolversOf(nodes: NodeMap): ResolverMap { map name | name in nodes :: ResolverOf(ArgsOf(nodes[name])) }

  predicate ResolversOk(nodes: NodeMap) { forall name | name in nodes :: ResolverOk(nodes[name].Address) }

  method NewResolverMap(conf: Config) returns (r: Option<ResolverMap>)
    ensures r.Some? <==> ResolversOk(conf.NodeMap)
    ensures r.Some? ==> r.value == ResolversOf(conf.NodeMap)
  {
    var resolverMap: ResolverMap := map[];
    var nodes := conf.NodeNames();
    var i := 0;
    while i < |nodes|
      invariant i <= |nodes|
      invariant resolverMap.Keys == set k | 0 <= k < i :: nodes[k]
      invariant forall name :: name in resolverMap ==>
                  name in conf.NodeMap && ResolverOk(conf.NodeMap[name].Address)
                  && resolverMap[name] == ResolverOf(ArgsOf(conf.NodeMap[name]))
    {
      var cfg := conf.LookupNode(nodes[i]);
      if cfg.Some? {
        var resolver := NewResolver(ArgsOf(cfg.value));
        if resolver.None? {
          return None;
        }
        resolverMap := resolverMap[nodes[i] := resolver.value];
      }
      i := i + 1;
    }
    assert resolverMap.Keys == conf.NodeMap.Keys;
    return Some(resolverMap);
  }

  /** The resolver map has exactly the names of the configuration, each with a provider for
      every comma-separated address of its entry and the entry's credentials. */
  ghost predicate Agrees(nodes: NodeMap, index: ResolverMap) {
    && index.Keys == nodes.Keys
    && forall name :: name in nodes ==>
         index[name] == ResolverOf(ArgsOf(nodes[name])) && ResolverOk(nodes[name].Address)
  }

  /* ---------------------------------------------------------------- runs of refreshes */

  /** The configuration together with the resolver map one controller server holds. */
  datatype ServerState = ServerState(config: ConfigState, index: ResolverMap)

  /** A refresh by the controller server, or by the identity server's probe, which does
      not rebuild the resolver map. */
  datatype Event = Refresh(secret: string, stat: Option<int>, content: Content)
                 | Probe(stat: Option<int>, content: Content)

  function ServerStep(s: ServerState, e: Event): (r: (bool, ServerState)) {
    match e
    case Probe(stat, content) =>
      var c := RefreshStep(s.config, "", stat, content);
      (c.ok, s.(config := c.state))
    case Refresh(secret, stat, content) =>
      var c := RefreshStep(s.config, secret, stat, content);
      if !c.ok then (false, s.(config := c.state))
      else if !c.changed then (true, s.(config := c.state))
      else if ResolversOk(c.state.nodes) then (true, ServerState(c.state, ResolversOf(c.state.nodes)))
      else (false, s.(config := c.state))
  }

  ghost predicate InAgreement(s: ServerState) { Agrees(s.config.nodes, s.index) }

  function RunEvents(s: ServerState, events: seq<Event>): ServerState
    decreases |events|
  {
    if events == [] then s else RunEvents(ServerStep(s, events[0]).1, events[1..])
  }

  /** No event of the run fails. */
  ghost predicate ErrorFree(s: ServerState, events: seq<Event>)
    decreases |events|
  {
    events == [] || (ServerStep(s, events[0]).0 && ErrorFree(ServerStep(s, events[0]).1, events[1..]))
  }

  lemma AgreesWhenBuilt(nodes: NodeMap)
    requires ResolversOk(nodes)
    ensures Agrees(nodes, ResolversOf(nodes))
  {
    forall name | name in nodes ensures ResolverOk(nodes[name].Address) {
    }
  }

  /** A refresh that reports a change and succeeds brings the two into agreement,
      whatever went before; one that reports no change leaves things as they are. */
  lemma RefreshAgrees(s: ServerState, secret: string, stat: Option<int>, content: Content)
    requires ServerStep(s, Refresh(secret, stat, content)).0
    ensures var changed := RefreshStep(s.config, secret, stat, content).changed;
            var after := ServerStep(s, Refresh(secret, stat, content)).1;
            if changed then InAgreement(after) else after == s
  {
    var c := RefreshStep(s.config, secret, stat, content);
    if c.changed {
      AgreesWhenBuilt(c.state.nodes);
    }
  }

  /** A secret is taken in whatever the file's time stamp: when its text is valid and makes
      resolvers, exactly its entries are there, each as given but for the default of the
      certificate check; the configuration is temporary and the resolver map agrees. */
  lemma SecretTakenIn(s: ServerState, secret: string, modTime: int, nodes: NodeMap)
    requires s.config.filePath != "" && secret != "" && AllValid(nodes) && ResolversOk(nodes)
    ensures var (ok, after) := ServerStep(s, Refresh(secret, Some(modTime), Parsed(nodes)));
            && ok && InAgreement(after) && FilledIn(after.config.nodes, nodes)
            && after.config.temporary && after.config.lastModTime == s.config.lastModTime
  {
    KeepsAccess(nodes);
    AgreesWhenBuilt(AllWithDefaults(nodes));
  }

  /** Without a secret a file that was changed, or that a secret stood in for, is taken in in
      the same way, and an unchanged one is not looked at. */
  lemma FileTakenIn(s: ServerState, modTime: int, nodes: NodeMap)
    requires s.config.filePath != "" && AllValid(nodes) && ResolversOk(nodes)
    ensures var (ok, after) := ServerStep(s, Refresh("", Some(modTime), Parsed(nodes)));
            && ok
            && (if s.config.lastModTime != modTime || s.config.temporary then
                  && InAgreement(after) && FilledIn(after.config.nodes, nodes)
                  && !after.config.temporary && after.config.lastModTime == modTime
                else after == s)
  {
    KeepsAccess(nodes);
    AgreesWhenBuilt(AllWithDefaults(nodes));
  }

  /** The given entries, with certificates not checked where nothing is said. */
  ghost predicate FilledIn(nodes: NodeMap, given: NodeMap) {
    && nodes.Keys == given.Keys
    && forall name :: name in given ==>
         nodes[name] == given[name].(InsecureSkipVerify := Some(given[name].InsecureSkipVerify != Some(false)))
  }

  lemma DefaultFilled(d: BsrData)
    ensures WithDefaults(d) == d.(InsecureSkipVerify := Some(d.InsecureSkipVerify != Some(false)))
  {
    match d.InsecureSkipVerify
    case None =>
    case Some(check) => assert d == d.(InsecureSkipVerify := Some(check));
  }

  lemma KeepsAccess(nodes: NodeMap)
    requires ResolversOk(nodes)
    ensures ResolversOk(AllWithDefaults(nodes)) && FilledIn(AllWithDefaults(nodes), nodes)
  {
    var kept := AllWithDefaults(nodes);
    forall name | name in kept ensures ResolverOk(kept[name].Address) {
      assert ResolverOk(nodes[name].Address);
    }
    forall name | name in nodes
      ensures kept[name] == nodes[name].(InsecureSkipVerify := Some(nodes[name].InsecureSkipVerify != Some(false)))
    {
      DefaultFilled(nodes[name]);
    }
  }

  /** In an index that agrees, every provider has an address of its entry and the entry's user
      name, password and certificate check, each in its place. */
  lemma Credentials(nodes: NodeMap, index: ResolverMap, name: string, i: nat)
    requires Agrees(nodes, index) && name in nodes && i < |Split(nodes[name].Address, ',')|
    ensures name in index && |index[name].Nodes| == |Split(nodes[name].Address, ',')|
    ensures var provider := index[name].Nodes[i];
            && provider.Address == Split(nodes[name].Address, ',')[i]
            && provider.Username == nodes[name].Username && provider.Password == nodes[name].Password
            && provider.InsecureSkipVerify == (nodes[name].InsecureSkipVerify != Some(false))
  {
  }

  /** In every error-free run in which only the controller server refreshes, the resolver
      map agrees with the configuration at the end. */
  lemma {:induction false} RunAgrees(s: ServerState, events: seq<Event>)
    requires InAgreement(s) && ErrorFree(s, events)
    requires forall i :: 0 <= i < |events| ==> events[i].Refresh?
    ensures InAgreement(RunEvents(s, events))
    decreases |events|
  {
    if events != [] {
      var e := events[0];
      RefreshAgrees(s, e.secret, e.stat, e.content);
      RunAgrees(ServerStep(s, e).1, events[1..]);
    }
  }

  lemma UnchangedRefresh(s: ServerState, later: Content)
    requires s.config.filePath != "" && !s.config.temporary
    ensures ServerStep(s, Refresh("", Some(s.config.lastModTime), later)) == (true, s)
  {
  }

  /* ---------------------------------------------------------------- hidden changes */

  /** The same entries, each with the same addresses and credentials. */
  ghost predicate SameAccess(a: NodeMap, b: NodeMap) {
    a.Keys == b.Keys && forall name :: name in a ==> ArgsOf(a[name]) == ArgsOf(b[name])
  }

  /** The entries that reading the file leaves behind, whether or not they are valid. */
  function TakenIn(nodes: NodeMap, content: Content): NodeMap {
    match content
    case Unreadable => nodes
    case Malformed(read) => read
    case Parsed(read) => if AllValid(read) then AllWithDefaults(read) else read
  }

  /** The file has been changed, or a secret stood in for it. */
  predicate Stale(c: ConfigState, modTime: int) { c.filePath != "" && (c.lastModTime != modTime || c.temporary) }

  /** Reading a changed file takes over its time stamp first, whatever comes of it. */
  lemma ReadsFile(c: ConfigState, modTime: int, content: Content)
    requires Stale(c, modTime)
    ensures var r := RefreshStep(c, "", Some(modTime), content);
            && r.changed && (r.ok <==> content.Parsed? && AllValid(content.nodes))
            && r.state == ConfigState(c.filePath, TakenIn(c.nodes, content), modTime, false)
  {
  }

  /** A resolver tells what it was made of. */
  lemma ResolverTellsArgs(a: ResolverArgs, b: ResolverArgs)
    requires ResolverOf(a) == ResolverOf(b)
    ensures a == b
  {
    var p, q := Split(a.Address, ','), Split(b.Address, ',');
    assert ProvidersOf(a, p) == ProvidersOf(b, q);
    assert |p| == |q|;
    forall i | 0 <= i < |p| ensures p[i] == q[i] && ProviderOf(a, p[i]) == ProviderOf(b, q[i]) {
      assert ProvidersOf(a, p)[i] == ProvidersOf(b, q)[i];
    }
    assert ProviderOf(a, p[0]) == ProviderOf(b, q[0]);
    assert p == q;
    SplitParts(a.Address, ',');
    SplitParts(b.Address, ',');
  }

  /** A map that agrees with one configuration agrees with another exactly when that has the
      same entries with the same addresses and credentials. */
  lemma AgreesWithBothIff(was: NodeMap, now: NodeMap, index: ResolverMap)
    requires Agrees(was, index)
    ensures Agrees(now, index) <==> SameAccess(now, was)
  {
    if Agrees(now, index) {
      forall name | name in now ensures ArgsOf(now[name]) == ArgsOf(was[name]) {
        assert index[name] == ResolverOf(ArgsOf(now[name])) && name in was;
        ResolverTellsArgs(ArgsOf(now[name]), ArgsOf(was[name]));
      }
    }
    if SameAccess(now, was) {
      forall name | name in now
        ensures index[name] == ResolverOf(ArgsOf(now[name])) && ResolverOk(now[name].Address)
      {
        assert ArgsOf(now[name]) == ArgsOf(was[name]) && name in was;
      }
    }
  }

  /** The configuration has taken in a file behind the resolver map's back: the next refresh
      reports success without a change. */
  lemma HiddenUnlessSame(s: ServerState, after: ServerState, later: Content)
    requires InAgreement(s) && after.index == s.index && after.config.filePath != "" && !after.config.temporary
    ensures ServerStep(after, Refresh("", Some(after.config.lastModTime), later)) == (true, after)
    ensures InAgreement(after) <==> SameAccess(after.config.nodes, s.config.nodes)
  {
    UnchangedRefresh(after, later);
    AgreesWithBothIff(s.config.nodes, after.config.nodes, s.index);
  }

  /** A probe that takes in a changed file, even one it then refuses, leaves the server's next
      refresh successful; the resolver map then agrees with the configuration exactly when
      the file has the same entries with the same addresses and credentials as before. */
  lemma ProbeHidesChange(s: ServerState, modTime: int, content: Content, later: Content)
    requires InAgreement(s) && Stale(s.config, modTime)
    ensures var probed := ServerStep(s, Probe(Some(modTime), content)).1;
            var (ok, refreshed) := ServerStep(probed, Refresh("", Some(modTime), later));
            ok && (InAgreement(refreshed) <==> SameAccess(TakenIn(s.config.nodes, content), s.config.nodes))
  {
    ReadsFile(s.config, modTime, content);
    HiddenUnlessSame(s, ServerStep(s, Probe(Some(modTime), content)).1, later);
  }

  /** So does every refresh that fails after the file was found changed: when it cannot be
      read, when it is malformed or invalid, or when its resolvers cannot be built. */
  lemma FailureHidesChange(s: ServerState, modTime: int, content: Content, later: Content)
    requires InAgreement(s) && Stale(s.config, modTime)
    requires !ServerStep(s, Refresh("", Some(modTime), content)).0
    ensures var failed := ServerStep(s, Refresh("", Some(modTime), content)).1;
            var (ok, refreshed) := ServerStep(failed, Refresh("", Some(modTime), later));
            ok && (InAgreement(refreshed) <==> SameAccess(TakenIn(s.config.nodes, content), s.config.nodes))
  {
    ReadsFile(s.config, modTime, content);
    HiddenUnlessSame(s, ServerStep(s, Refresh("", Some(modTime), content)).1, later);
  }

  /** The failures that hide nothing: a file that is not found leaves the state as it is, and
      after a failed secret the next refresh reads the file again, so that it agrees if it succeeds. */
  lemma OtherFailuresShow(s: ServerState, secret: string, stat: Option<int>, content: Content, modTime: int,
                          later: Content)
    requires InAgreement(s) && !ServerStep(s, Refresh(secret, stat, content)).0
    requires s.config.filePath == "" || stat.None? || secret != ""
    ensures var failed := ServerStep(s, Refresh(secret, stat, content)).1;
            var (ok, refreshed) := ServerStep(failed, Refresh("", Some(modTime), later));
            && (s.config.filePath == "" || stat.None? ==> failed == s)
            && (ok ==> InAgreement(refreshed))
  {
    var failed := ServerStep(s, Refresh(secret, stat, content)).1;
    if ServerStep(failed, Refresh("", Some(modTime), later)).0 {
      RefreshAgrees(failed, "", Some(modTime), later);
    }
  }

  predicate AddressOf(s: string, host: string, port: string) {
    && s == "https://" + host + ":" + port && host != "" && ':' !in host
    && 1 <= |port| <= 5 && AllDigits(port)
  }

  lemma AddressIsValid(s: string, host: string, port: string)
    requires AddressOf(s, host, port)
    ensures ValidAddress(s)
  {
    assert s[..8] == "https://" && s[8..] == host + ":" + port;
    assert ':' !in port;
    SplitCons(host, ':', port);
    SplitNone(port, ':');
  }

  lemma AddressParts(s: string) returns (host: string, port: string)
    requires ValidAddress(s)
    ensures AddressOf(s, host, port)
  {
    SplitInTwo(s[8..], ':');
    var p := Split(s[8..], ':');
    host, port := p[0], p[1];
    Rejoin(s, s[..8], s[8..], host, port);
  }

  lemma Rejoin(s: string, head: string, tail: string, host: string, port: string)
    requires |head| <= |s| && head == s[..|head|] && tail == s[|head|..] && tail == host + ":" + port
    ensures s == head + host + ":" + port
  {
    assert s == head + tail;
    assert head + (host + ":" + port) == head + host + ":" + port;
  }

  ghost predicate IsAddress(s: string) { exists host, port :: AddressOf(s, host, port) }

  /** Which addresses validation admits: https, a host without colon, and one to five digits. */
  lemma ValidAddressIff(s: string)
    ensures ValidAddress(s) <==> IsAddress(s)
  {
    if ValidAddress(s) {
      var host, port := AddressParts(s);
      assert AddressOf(s, host, port);
    }
    if host, port :| AddressOf(s, host, port) {
      AddressIsValid(s, host, port);
    }
  }

  /** Which entries it admits: addresses separated by commas, at least one, with both credentials. */
  lemma ValidEntryIff(d: BsrData)
    ensures ValidEntry(d) <==>
              && (forall address <- Split(d.Address, ',') :: IsAddress(address))
              && d.Username != "" && d.Password != ""
              && (d.DefaultMountFsType == "" || d.DefaultMountFsType == "nfs" || d.DefaultMountFsType == "cifs")
  {
    var addresses := Split(d.Address, ',');
    forall address ensures ValidAddress(address) <==> IsAddress(address) {
      ValidAddressIff(address);
    }
    if d.Address == "" {
      assert addresses[0] == "" && !ValidAddress(addresses[0]);
    }
  }

  lemma LastColon(host: string, port: string)
    requires ':' !in port
    ensures LastIndexOf(host + ":" + port, ':') == |host|
  {
    var s := host + ":" + port;
    assert s[|host| + 1..] == port && s[|host|] == ':';
    LastIndexIs(s, ':', |host|);
  }

  lemma LastIndexIs(s: string, c: char, i: nat)
    requires i < |s| && s[i] == c && c !in s[i + 1..]
    ensures LastIndexOf(s, c) == i
  {
    var j := LastIndexOf(s, c);
    forall k | i < k < |s| ensures s[k] != c {
      assert s[i + 1..][k - i - 1] == s[k];
    }
  }

  /** Validation admits five-digit ports; an address that passed it makes a provider
      exactly when its port fits 16 bits. */
  lemma ValidatedPort(address: string)
    requires ValidAddress(address)
    ensures AllDigits(Split(address[8..], ':')[1])
    ensures ProviderOk(address) <==> Value(Split(address[8..], ':')[1]) < 0x1_0000
  {
    var p := Split(address[8..], ':');
    SplitInTwo(address[8..], ':');
    assert ':' !in p[1];
    var host := address[..8] + p[0];
    assert address == host + ":" + p[1];
    LastColon(host, p[1]);
    assert address[|host| + 1..] == p[1];
  }
}
