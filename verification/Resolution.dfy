/** Which node of which configuration entry serves a request. */
module Resolution {
  import opened Text
  import opened Status
  import opened Storage
  import opened Configuration

  /** Empty strings mean "not given". */
  datatype Params = Params(datasetPath: string, zone: string, configName: string)

  datatype Target = Target(datasetPath: string, addr: string, configName: string)

  datatype ResolveError = ProviderError(err: BsrError) | NodeRemoved | ZoneMismatch | NoProvider

  datatype Resolved = Found(target: Target) | Unresolved(err: ResolveError)

  /** The status code an unresolved request ends with. */
  function ErrorCode(e: ResolveError): Code { if e == ProviderError(NotExist) then NotFound else Internal }

  /** The text of the failure contains "NotFound", in its own code or in a wrapped one. */
  predicate MentionsNotFound(e: ResolveError) { ErrorCode(e) == NotFound || e.NodeRemoved? || e.NoProvider? }

  /* ---------------------------------------------------------------- one resolver */

  /** The first node that has the dataset, else the failure of the last one asked. */
  function Scan(nodes: seq<Provider>, fleet: Fleet, path: string, err: BsrError): Reply<string> {
    if nodes == [] then Failed(err)
    else
      match GetDataset(fleet, nodes[0].Address, path)
      case Done(_) => Done(nodes[0].Address)
      case Failed(e) => Scan(nodes[1..], fleet, path, e)
  }

  function ResolveOn(resolver: Resolver, fleet: Fleet, path: string): Reply<string> {
    if path == "" then Failed(Other) else Scan(resolver.Nodes, fleet, path, Other)
  }

  ghost predicate SomeHosts(resolver: Resolver, fleet: Fleet, path: string) {
    path != "" && exists i :: 0 <= i < |resolver.Nodes| && Hosts(fleet, resolver.Nodes[i].Address, path)
  }

  ghost predicate FirstHost(resolver: Resolver, fleet: Fleet, path: string, addr: string) {
    && path != ""
    && exists i :: 0 <= i < |resolver.Nodes| && resolver.Nodes[i].Address == addr && Hosts(fleet, addr, path)
                   && forall k :: 0 <= k < i ==> !Hosts(fleet, resolver.Nodes[k].Address, path)
  }

  predicate Reachable(resolver: Resolver, fleet: Fleet) {
    forall i :: 0 <= i < |resolver.Nodes| ==> resolver.Nodes[i].Address in fleet
  }

  lemma {:induction false} ScanMeaning(nodes: seq<Provider>, fleet: Fleet, path: string, err: BsrError)
    requires path != ""
    ensures var r := Scan(nodes, fleet, path, err);
            && (r.Done? <==> SomeHosts(Resolver(nodes), fleet, path))
            && (r.Done? ==> FirstHost(Resolver(nodes), fleet, path, r.value))
            && (r.Failed? && nodes != [] && Reachable(Resolver(nodes), fleet) ==> r.err == NotExist)
    decreases |nodes|
  {
    if nodes != [] {
      var rest := nodes[1..];
      assert forall i :: 0 < i < |nodes| ==> nodes[i] == rest[i - 1];
      if Hosts(fleet, nodes[0].Address, path) {
        assert FirstHost(Resolver(nodes), fleet, path, nodes[0].Address);
      } else {
        ScanMeaning(rest, fleet, path, if nodes[0].Address in fleet then NotExist else Other);
        ScanRest(nodes, fleet, path);
      }
    }
  }

  lemma ScanRest(nodes: seq<Provider>, fleet: Fleet, path: string)
    requires path != "" && nodes != [] && !Hosts(fleet, nodes[0].Address, path)
    ensures SomeHosts(Resolver(nodes), fleet, path) <==> SomeHosts(Resolver(nodes[1..]), fleet, path)
    ensures forall addr :: FirstHost(Resolver(nodes[1..]), fleet, path, addr) ==>
              FirstHost(Resolver(nodes), fleet, path, addr)
  {
    var rest := nodes[1..];
    if SomeHosts(Resolver(rest), fleet, path) {
      var i :| 0 <= i < |rest| && Hosts(fleet, rest[i].Address, path);
      assert nodes[i + 1] == rest[i];
    }
    forall addr | FirstHost(Resolver(rest), fleet, path, addr) ensures FirstHost(Resolver(nodes), fleet, path, addr) {
      var i :| 0 <= i < |rest| && rest[i].Address == addr && Hosts(fleet, addr, path)
               && forall k :: 0 <= k < i ==> !Hosts(fleet, rest[k].Address, path);
      assert nodes[i + 1].Address == addr;
      forall k | 0 <= k < i + 1 ensures !Hosts(fleet, nodes[k].Address, path) {
        if k > 0 {
          assert nodes[k] == rest[k - 1];
        }
      }
    }
  }

  /** A resolver succeeds exactly when one of its nodes has the dataset, and picks the
      first such node; with all nodes reachable a failure says that the dataset does not exist. */
  lemma ResolveOnMeaning(resolver: Resolver, fleet: Fleet, path: string)
    ensures var r := ResolveOn(resolver, fleet, path);
            && (r.Done? <==> SomeHosts(resolver, fleet, path))
            && (r.Done? ==> FirstHost(resolver, fleet, path, r.value))
            && (r.Failed? && path != "" && resolver.Nodes != [] && Reachable(resolver, fleet) ==> r.err == NotExist)
  {
    if path != "" {
      ScanMeaning(resolver.Nodes, fleet, path, Other);
    }
  }

  lemma {:induction false} ScanFailure(nodes: seq<Provider>, fleet: Fleet, path: string, err: BsrError)
    requires path != "" && nodes != [] && Scan(nodes, fleet, path, err).Failed?
    ensures Scan(nodes, fleet, path, err).err == if nodes[|nodes| - 1].Address in fleet then NotExist else Other
    decreases |nodes|
  {
    if |nodes| > 1 {
      ScanFailure(nodes[1..], fleet, path, if nodes[0].Address in fleet then NotExist else Other);
    }
  }

  /** A failed resolver reports what its last node said: that the dataset does not exist, or
      something else when that node is away; so it does without a path or without nodes. */
  lemma ResolveFailure(resolver: Resolver, fleet: Fleet, path: string)
    requires ResolveOn(resolver, fleet, path).Failed?
    ensures ResolveOn(resolver, fleet, path).err
            == if path != "" && resolver.Nodes != []
                  && resolver.Nodes[|resolver.Nodes| - 1].Address in fleet then NotExist else Other
  {
    if path != "" && resolver.Nodes != [] {
      ScanFailure(resolver.Nodes, fleet, path, Other);
    }
  }

  lemma FirstHostUnique(resolver: Resolver, fleet: Fleet, path: string, a: string, b: string)
    requires FirstHost(resolver, fleet, path, a) && FirstHost(resolver, fleet, path, b)
    ensures a == b
  {
    var i :| 0 <= i < |resolver.Nodes| && resolver.Nodes[i].Address == a && Hosts(fleet, a, path)
             && forall k :: 0 <= k < i ==> !Hosts(fleet, resolver.Nodes[k].Address, path);
    var j :| 0 <= j < |resolver.Nodes| && resolver.Nodes[j].Address == b && Hosts(fleet, b, path)
             && forall k :: 0 <= k < j ==> !Hosts(fleet, resolver.Nodes[k].Address, path);
    assert !(i < j) && !(j < i);
  }

  /* ---------------------------------------------------------------- all resolvers */

  /** An entry that may serve a request: the one asked for, in the zone asked for. */
  ghost predicate Eligible(conf: NodeMap, index: ResolverMap, p: Params, name: string) {
    && name in index
    && (p.configName != "" ==> name == p.configName)
    && (p.zone != "" ==> name in conf && conf[name].Zone == p.zone)
    && (p.datasetPath == "" ==> name in conf)
  }

  /** The dataset asked for, or the entry's default one. */
  function PathFor(conf: NodeMap, p: Params, name: string): string
    requires p.datasetPath == "" ==> name in conf
  {
    if p.datasetPath != "" then p.datasetPath else conf[name].DefaultDataset
  }

  /** An eligible entry one of whose nodes has its dataset. */
  ghost predicate Serves(conf: NodeMap, index: ResolverMap, fleet: Fleet, p: Params, name: string) {
    Eligible(conf, index, p, name) && SomeHosts(index[name], fleet, PathFor(conf, p, name))
  }

  /** The target is the first node of an eligible entry that has the entry's dataset. */
  ghost predicate Sound(conf: NodeMap, index: ResolverMap, fleet: Fleet, p: Params, t: Target) {
    && Eligible(conf, index, p, t.configName)
    && t.datasetPath == PathFor(conf, p, t.configName)
    && FirstHost(index[t.configName], fleet, t.datasetPath, t.addr)
  }

  /** Requests that do not run into a missing resolver or an empty resolver map. */
  ghost predicate Answerable(conf: NodeMap, index: ResolverMap, p: Params) {
    if p.configName != "" then
      (if p.zone != "" then p.configName in conf && conf[p.configName].Zone == p.zone
       else p.datasetPath == "" ==> p.configName in conf)
      ==> p.configName in index
    else if p.zone == "" then index != map[]
    else exists name :: name in index && (name in conf ==> conf[name].Zone == p.zone)
  }

  /** The outcome when an entry is asked for by name. */
  function NamedOutcome(conf: NodeMap, index: ResolverMap, fleet: Fleet, p: Params): Resolved {
    var name := p.configName;
    if p.zone != "" && name !in conf then Unresolved(NodeRemoved)
    else if p.zone != "" && conf[name].Zone != p.zone then Unresolved(ZoneMismatch)
    else if p.datasetPath == "" && name !in conf then Unresolved(NodeRemoved)
    else if name !in index then Unresolved(NoProvider)
    else
      var path := PathFor(conf, p, name);
      match ResolveOn(index[name], fleet, path)
      case Done(addr) => Found(Target(path, addr, name))
      case Failed(err) => Unresolved(ProviderError(err))
  }

  /** Trying an entry needs its configuration. */
  predicate LooksUp(p: Params) { p.zone != "" || p.datasetPath == "" }

  /** The outcome when the entries are tried in this order. */
  function Tried(conf: NodeMap, index: ResolverMap, fleet: Fleet, p: Params, order: seq<string>): Resolved
    requires forall i :: 0 <= i < |order| ==> order[i] in index
  {
    if order == [] then Unresolved(NoProvider)
    else
      var name := order[0];
      if LooksUp(p) && name !in conf then Unresolved(NodeRemoved)
      else if p.zone != "" && conf[name].Zone != p.zone then Tried(conf, index, fleet, p, order[1..])
      else
        match ResolveOn(index[name], fleet, PathFor(conf, p, name))
        case Done(addr) => Found(Target(PathFor(conf, p, name), addr, name))
        case Failed(_) => Tried(conf, index, fleet, p, order[1..])
  }

  /** The outcome of a request for one order of the map; a named entry makes the order irrelevant. */
  function OutcomeIn(conf: NodeMap, index: ResolverMap, fleet: Fleet, p: Params, order: seq<string>): Resolved
    requires forall i :: 0 <= i < |order| ==> order[i] in index
  {
    if p.configName != "" then NamedOutcome(conf, index, fleet, p) else Tried(conf, index, fleet, p, order)
  }

  /** The outcomes resolution may have. Asked for by name there is one; otherwise the
      entries are tried in whatever order the map gives them. */
  ghost predicate Answers(conf: NodeMap, index: ResolverMap, fleet: Fleet, p: Params, r: Resolved) {
    if p.configName != "" then r == NamedOutcome(conf, index, fleet, p)
    else
      match r
      case Found(t) => Sound(conf, index, fleet, p, t)
      case Unresolved(NodeRemoved) => LooksUp(p) && exists name :: name in index && name !in conf
      case Unresolved(NoProvider) =>
        && (forall name :: !Serves(conf, index, fleet, p, name))
        && (LooksUp(p) ==> index.Keys <= conf.Keys)
      case _ => false
  }

  /** An order in which a map may give its names. */
  ghost predicate IsOrder(order: seq<string>, names: set<string>) {
    && (forall x :: x in order <==> x in names)
    && (forall i, j :: 0 <= i < j < |order| ==> order[i] != order[j])
  }

  /** Whatever the entries in front of it, one that serves or is not configured decides
      when it is reached; what is not found is served by none of those tried. */
  lemma {:induction false} TriedMeaning(conf: NodeMap, index: ResolverMap, fleet: Fleet, p: Params, order: seq<string>)
    requires p.configName == "" && forall i :: 0 <= i < |order| ==> order[i] in index
    ensures match Tried(conf, index, fleet, p, order)
            case Found(t) => Sound(conf, index, fleet, p, t)
            case Unresolved(NodeRemoved) => LooksUp(p) && exists name :: name in index && name !in conf
            case Unresolved(NoProvider) =>
              && (forall name :: name in order ==> !Serves(conf, index, fleet, p, name))
              && (LooksUp(p) ==> forall name :: name in order ==> name in conf)
            case _ => false
    decreases |order|
  {
    if order != [] {
      var name := order[0];
      assert order == [name] + order[1..];
      if !(LooksUp(p) && name !in conf) {
        ResolveOnMeaning(index[name], fleet, PathFor(conf, p, name));
        TriedMeaning(conf, index, fleet, p, order[1..]);
      }
    }
  }

  lemma OrderFrom(name: string, names: set<string>) returns (order: seq<string>)
    requires name in names
    ensures IsOrder(order, names) && order != [] && order[0] == name
  {
    var rest := Sorted(names - {name});
    SortedIsOrder(names - {name});
    order := [name] + rest;
  }

  lemma SortedIsOrder(names: set<string>)
    ensures IsOrder(Sorted(names), names)
  {
    var s := Sorted(names);
    forall i, j | 0 <= i < j < |s| ensures s[i] != s[j] {
      LessTotal(s[i], s[j]);
    }
  }

  /** The allowed outcomes are exactly those of the orders the map may have. */
  lemma AnswersAreOrders(conf: NodeMap, index: ResolverMap, fleet: Fleet, p: Params, r: Resolved)
    ensures Answers(conf, index, fleet, p, r)
            <==> exists order :: IsOrder(order, index.Keys) && r == OutcomeIn(conf, index, fleet, p, order)
  {
    if order :| IsOrder(order, index.Keys) && r == OutcomeIn(conf, index, fleet, p, order) {
      if p.configName == "" {
        TriedMeaning(conf, index, fleet, p, order);
        OrderMembers(order, index.Keys);
      }
    }
    if Answers(conf, index, fleet, p, r) {
      if p.configName == "" {
        var order := OrderFor(conf, index, fleet, p, r);
        assert r == OutcomeIn(conf, index, fleet, p, order);
      } else {
        SortedIsOrder(index.Keys);
        assert r == OutcomeIn(conf, index, fleet, p, Sorted(index.Keys));
      }
    }
  }

  lemma OrderMembers(order: seq<string>, names: set<string>)
    requires IsOrder(order, names)
    ensures forall i :: 0 <= i < |order| ==> order[i] in names
  {
  }

  /** An order that gives an allowed outcome: the deciding entry comes first. */
  lemma OrderFor(conf: NodeMap, index: ResolverMap, fleet: Fleet, p: Params, r: Resolved) returns (order: seq<string>)
    requires p.configName == "" && Answers(conf, index, fleet, p, r)
    ensures IsOrder(order, index.Keys) && r == Tried(conf, index, fleet, p, order)
  {
    match r
    case Found(t) =>
      order := OrderFrom(t.configName, index.Keys);
      ResolveOnMeaning(index[t.configName], fleet, t.datasetPath);
      FirstHostUnique(index[t.configName], fleet, t.datasetPath, t.addr,
                      ResolveOn(index[t.configName], fleet, t.datasetPath).value);
    case Unresolved(NodeRemoved) =>
      var name :| name in index && name !in conf;
      order := OrderFrom(name, index.Keys);
    case Unresolved(NoProvider) =>
      order := Sorted(index.Keys);
      SortedIsOrder(index.Keys);
      NobodyServes(conf, index, fleet, p, order);
  }

  lemma {:induction false} NobodyServes(conf: NodeMap, index: ResolverMap, fleet: Fleet, p: Params, order: seq<string>)
    requires p.configName == "" && forall i :: 0 <= i < |order| ==> order[i] in index
    requires (forall name :: !Serves(conf, index, fleet, p, name)) && (LooksUp(p) ==> index.Keys <= conf.Keys)
    ensures Tried(conf, index, fleet, p, order) == Unresolved(NoProvider)
    decreases |order|
  {
    if order != [] {
      var name := order[0];
      assert name in index && !Serves(conf, index, fleet, p, name);
      if p.zone == "" || conf[name].Zone == p.zone {
        ResolveOnMeaning(index[name], fleet, PathFor(conf, p, name));
      }
      NobodyServes(conf, index, fleet, p, order[1..]);
    }
  }

  /** Resolution is sound, and with a resolver map that agrees with the configuration it
      is complete: it succeeds exactly when some eligible entry has its dataset, for
      every order in which the entries are tried. */
  lemma ResolutionSoundComplete(conf: NodeMap, index: ResolverMap, fleet: Fleet, p: Params, r: Resolved)
    requires Answerable(conf, index, p) && Answers(conf, index, fleet, p, r)
    ensures r.Found? ==> Sound(conf, index, fleet, p, r.target)
    ensures r.Found? && p.configName != "" ==> r.target.configName == p.configName
    ensures r.Found? && p.zone != "" ==> r.target.configName in conf && conf[r.target.configName].Zone == p.zone
    ensures Agrees(conf, index) ==> (r.Found? <==> exists name :: Serves(conf, index, fleet, p, name))
  {
    if p.configName != "" {
      NamedSoundComplete(conf, index, fleet, p);
    } else if r.Found? {
      SoundServes(conf, index, fleet, p, r.target);
    }
  }

  /** Whatever is found is sound, also when the request names its entry. */
  lemma FoundIsSound(conf: NodeMap, index: ResolverMap, fleet: Fleet, p: Params, t: Target)
    requires Answers(conf, index, fleet, p, Found(t))
    ensures Sound(conf, index, fleet, p, t)
  {
    if p.configName != "" {
      ResolveOnMeaning(index[p.configName], fleet, PathFor(conf, p, p.configName));
    }
  }

  /** Whatever is found is on a reachable appliance that has the dataset. */
  lemma FoundIsHosted(conf: NodeMap, index: ResolverMap, fleet: Fleet, p: Params, t: Target)
    requires Answers(conf, index, fleet, p, Found(t))
    ensures Hosts(fleet, t.addr, t.datasetPath)
  {
    if p.configName != "" {
      ResolveOnMeaning(index[p.configName], fleet, PathFor(conf, p, p.configName));
    }
  }

  lemma SoundServes(conf: NodeMap, index: ResolverMap, fleet: Fleet, p: Params, t: Target)
    requires Sound(conf, index, fleet, p, t)
    ensures Serves(conf, index, fleet, p, t.configName)
  {
  }

  lemma NamedSoundComplete(conf: NodeMap, index: ResolverMap, fleet: Fleet, p: Params)
    requires p.configName != "" && Answerable(conf, index, p)
    ensures var r := NamedOutcome(conf, index, fleet, p);
            && (r.Found? ==> Sound(conf, index, fleet, p, r.target))
            && (r.Found? <==> exists name :: Serves(conf, index, fleet, p, name))
  {
    var name := p.configName;
    if Eligible(conf, index, p, name) {
      ResolveOnMeaning(index[name], fleet, PathFor(conf, p, name));
      assert Serves(conf, index, fleet, p, name) <==> NamedOutcome(conf, index, fleet, p).Found?;
    }
  }

  /** Two orders of the map. */
  ghost predicate Orders(index: ResolverMap, a: seq<string>, b: seq<string>) {
    IsOrder(a, index.Keys) && IsOrder(b, index.Keys)
  }

  /** The outcome of a request is the same for all orders of the map exactly when an entry
      is named or at most one entry can serve it. */
  lemma DeterministicIff(conf: NodeMap, index: ResolverMap, fleet: Fleet, p: Params)
    requires Agrees(conf, index)
    ensures (forall a: seq<string>, b: seq<string> :: Orders(index, a, b) ==>
               OutcomeIn(conf, index, fleet, p, a) == OutcomeIn(conf, index, fleet, p, b))
            <==> p.configName != ""
                 || forall m: string, n: string ::
                      Serves(conf, index, fleet, p, m) && Serves(conf, index, fleet, p, n) ==> m == n
  {
    if p.configName == "" {
      if m: string, n: string :| Serves(conf, index, fleet, p, m) && Serves(conf, index, fleet, p, n) && m != n {
        OrdersDiffer(conf, index, fleet, p, m, n);
      } else {
        forall a: seq<string>, b: seq<string> | Orders(index, a, b)
          ensures OutcomeIn(conf, index, fleet, p, a) == OutcomeIn(conf, index, fleet, p, b)
        {
          AnswersAreOrders(conf, index, fleet, p, OutcomeIn(conf, index, fleet, p, a));
          AnswersAreOrders(conf, index, fleet, p, OutcomeIn(conf, index, fleet, p, b));
          OnlyAnswer(conf, index, fleet, p, OutcomeIn(conf, index, fleet, p, a), OutcomeIn(conf, index, fleet, p, b));
        }
      }
    }
  }

  lemma OrdersDiffer(conf: NodeMap, index: ResolverMap, fleet: Fleet, p: Params, m: string, n: string)
    requires p.configName == "" && m != n
    requires Serves(conf, index, fleet, p, m) && Serves(conf, index, fleet, p, n)
    ensures exists a: seq<string>, b: seq<string> ::
              Orders(index, a, b) && OutcomeIn(conf, index, fleet, p, a) != OutcomeIn(conf, index, fleet, p, b)
  {
    var t := ServingTarget(conf, index, fleet, p, m);
    var u := ServingTarget(conf, index, fleet, p, n);
    var a := OrderFor(conf, index, fleet, p, Found(t));
    var b := OrderFor(conf, index, fleet, p, Found(u));
    assert Orders(index, a, b) && OutcomeIn(conf, index, fleet, p, a) != OutcomeIn(conf, index, fleet, p, b);
  }

  lemma ServingTarget(conf: NodeMap, index: ResolverMap, fleet: Fleet, p: Params, name: string) returns (t: Target)
    requires Serves(conf, index, fleet, p, name)
    ensures Sound(conf, index, fleet, p, t) && t.configName == name
  {
    var path := PathFor(conf, p, name);
    ResolveOnMeaning(index[name], fleet, path);
    t := Target(path, ResolveOn(index[name], fleet, path).value, name);
  }

  lemma OnlyAnswer(conf: NodeMap, index: ResolverMap, fleet: Fleet, p: Params, a: Resolved, b: Resolved)
    requires Agrees(conf, index) && p.configName == ""
    requires Answers(conf, index, fleet, p, a) && Answers(conf, index, fleet, p, b)
    requires forall m, n :: Serves(conf, index, fleet, p, m) && Serves(conf, index, fleet, p, n) ==> m == n
    ensures a == b
  {
    if a.Found? {
      SoundServes(conf, index, fleet, p, a.target);
    }
    if b.Found? {
      SoundServes(conf, index, fleet, p, b.target);
    }
    if a.Found? && b.Found? {
      FirstHostUnique(index[a.target.configName], fleet, a.target.datasetPath, a.target.addr, b.target.addr);
    }
  }

  /* ---------------------------------------------------------------- what is on no node */

  /** A request for a dataset that none of the nodes has, all of which can be asked. */
  ghost predicate NoneHosts(conf: NodeMap, index: ResolverMap, fleet: Fleet, p: Params) {
    && Agrees(conf, index) && Answerable(conf, index, p) && p.zone == "" && p.datasetPath != ""
    && forall name :: name in index ==> Reachable(index[name], fleet) && !SomeHosts(index[name], fleet, p.datasetPath)
  }

  /** It is unresolved for every order of the map. Its code says "not found" exactly when
      the request names an entry; its text says so always. */
  lemma MissingEverywhere(conf: NodeMap, index: ResolverMap, fleet: Fleet, p: Params, r: Resolved)
    requires NoneHosts(conf, index, fleet, p) && Answers(conf, index, fleet, p, r)
    ensures r.Unresolved? && MentionsNotFound(r.err)
    ensures ErrorCode(r.err) == NotFound <==> p.configName != ""
    ensures p.configName == "" ==> ErrorCode(r.err) == Internal
  {
    if p.configName != "" {
      ResolveOnMeaning(index[p.configName], fleet, p.datasetPath);
      assert index[p.configName] == ResolverOf(ArgsOf(conf[p.configName]));
    } else if r.Found? {
      SoundServes(conf, index, fleet, p, r.target);
    }
  }
}
