/** Authored dependencies become graph edges: `applyExplicitDependencies` rewrites the compiled nodes in place. */
module ExplicitDependencies {
  import opened Addresses
  import opened Model
  import opened ResourceGraph

  /** An authored dependency and the place in the configuration it was written at. */
  datatype Dependency = Dependency(from: string, dependsOn: string, source: string)

  datatype DependencyError =
    | CrossesHost(dependency: Dependency)
    | UnknownDependent(dependency: Dependency)
    | UnknownTarget(dependency: Dependency)

  predicate InScope(host: string, address: string)
  {
    "host." + host + "." <= address
  }

  ghost predicate Accepted(host: string, nodes: seq<Node>, d: Dependency)
  {
    && InScope(host, d.from) && InScope(host, d.dependsOn)
    && d.from in NodeAddresses(nodes) && d.dependsOn in NodeAddresses(nodes)
  }

  ghost predicate Rejects(host: string, nodes: seq<Node>, error: DependencyError)
  {
    match error
    case CrossesHost(d) => !InScope(host, d.from) || !InScope(host, d.dependsOn)
    case UnknownDependent(d) => InScope(host, d.from) && InScope(host, d.dependsOn) && d.from !in NodeAddresses(nodes)
    case UnknownTarget(d) =>
      InScope(host, d.from) && InScope(host, d.dependsOn) && d.from in NodeAddresses(nodes) && d.dependsOn !in NodeAddresses(nodes)
  }

  /** The node that owns an address: the last one compiled under it. */
  ghost predicate Owns(nodes: seq<Node>, i: nat)
    requires i < |nodes|
  {
    forall j :: i < j < |nodes| ==> nodes[j].address != nodes[i].address
  }

  /** Everything but the dependency lists and their sources. */
  function Frame(node: Node): Node
  {
    node.(dependsOn := [], explicitDependsOn := [], dependencySources := map[])
  }

  /** Where the first of the dependencies from one address on another was written. */
  function FirstSource(deps: seq<Dependency>, from: string, on: string): (source: Option<string>)
    ensures source.Some? <==> exists d :: d in deps && d.from == from && d.dependsOn == on
  {
    if deps == [] then None
    else
      var n := |deps| - 1;
      assert deps == deps[..n] + [deps[n]];
      var before := FirstSource(deps[..n], from, on);
      if before.Some? then before
      else if deps[n].from == from && deps[n].dependsOn == on then Some(deps[n].source)
      else None
  }

  /** The source is that of the first dependency that asks for the edge. */
  lemma {:induction false} FirstSourceIs(deps: seq<Dependency>, from: string, on: string, k: nat)
    requires k < |deps| && deps[k].from == from && deps[k].dependsOn == on
    requires forall j :: 0 <= j < k ==> !(deps[j].from == from && deps[j].dependsOn == on)
    ensures FirstSource(deps, from, on) == Some(deps[k].source)
    decreases |deps|
  {
    var n := |deps| - 1;
    if k < n {
      FirstSourceIs(deps[..n], from, on, k);
    }
  }

  /** No address is in the scope of two hosts. */
  lemma ScopesDisjoint(a: string, b: string, address: string)
    requires '.' !in a && '.' !in b && InScope(a, address) && InScope(b, address)
    ensures a == b
  {
    hide InScope;
    if |a| < |b| {
      ScopeAt(a, address, |a|);
      ScopeAt(b, address, |a|);
    } else if |b| < |a| {
      ScopeAt(a, address, |b|);
      ScopeAt(b, address, |b|);
    } else {
      forall k | 0 <= k < |a| ensures a[k] == b[k] {
        ScopeAt(a, address, k);
        ScopeAt(b, address, k);
      }
    }
  }

  lemma ScopeAt(host: string, address: string, k: nat)
    requires InScope(host, address) && k <= |host|
    ensures |address| > 5 + k && address[5 + k] == (host + ".")[k]
  {
    var p := "host." + host + ".";
    assert p == address[..|p|] && p[5 + k] == (host + ".")[k];
  }

  ghost predicate Asked(deps: seq<Dependency>, from: string, on: string)
  {
    FirstSource(deps, from, on).Some?
  }

  /** The node owns an address that some of the dependencies start from. */
  ghost predicate Touched(nodes: seq<Node>, deps: seq<Dependency>, i: nat)
    requires i < |nodes|
  {
    Owns(nodes, i) && exists d :: d in deps && d.from == nodes[i].address
  }

  /** after is before with exactly the given authored dependencies added to their owners, in both lists, which
      come out sorted and free of repetitions, and with the first source of each new one; every other node is
      untouched. */
  ghost predicate Extends(before: seq<Node>, deps: seq<Dependency>, after: seq<Node>)
  {
    && |after| == |before|
    && forall i :: 0 <= i < |before| ==>
         && Frame(after[i]) == Frame(before[i])
         && (if Touched(before, deps, i)
             then StrictlySorted(after[i].dependsOn) && StrictlySorted(after[i].explicitDependsOn)
             else after[i] == before[i])
         && forall d :: Gains(before[i], deps, Owns(before, i), after[i], d)
  }

  ghost predicate Gains(before: Node, deps: seq<Dependency>, owner: bool, after: Node, d: string)
  {
    var asked := owner && Asked(deps, before.address, d);
    && (d in after.explicitDependsOn <==> d in before.explicitDependsOn || asked)
    && (d in after.dependsOn <==> d in before.dependsOn || asked)
    && (d in after.dependencySources <==> d in before.dependencySources || asked)
    && (d in after.dependencySources ==>
          after.dependencySources[d] ==
          if d in before.dependencySources then before.dependencySources[d]
          else FirstSource(deps, before.address, d).value)
  }

  /** The k-th dependency is the first to be refused, and those before it have been added. */
  ghost predicate StopsAt(host: string, before: seq<Node>, deps: seq<Dependency>, k: nat,
                          error: DependencyError, after: seq<Node>)
    requires k < |deps|
  {
    && error.dependency == deps[k] && Rejects(host, before, error)
    && (forall d :: d in deps[..k] ==> Accepted(host, before, d))
    && Extends(before, deps[..k], after)
  }

  /** The map from address to index, later nodes winning. */
  method IndexByAddress(nodes: array<Node>) returns (byAddress: map<string, nat>)
    ensures forall a :: a in byAddress <==> a in NodeAddresses(nodes[..])
    ensures forall a :: a in byAddress ==> byAddress[a] < nodes.Length && nodes[byAddress[a]].address == a && Owns(nodes[..], byAddress[a])
  {
    byAddress := map[];
    for index := 0 to nodes.Length
      invariant forall a :: a in byAddress <==> exists j :: 0 <= j < index && nodes[j].address == a
      invariant forall a :: a in byAddress ==> byAddress[a] < index && nodes[byAddress[a]].address == a
      invariant forall a, j :: a in byAddress && byAddress[a] < j < index ==> nodes[j].address != a
    {
      byAddress := byAddress[nodes[index].address := index];
    }
    forall a ensures a in byAddress <==> a in NodeAddresses(nodes[..]) {
      if a in byAddress {
        var j :| 0 <= j < nodes.Length && nodes[j].address == a;
        assert NodeAddresses(nodes[..])[j] == a;
      }
      if a in NodeAddresses(nodes[..]) {
        var j :| 0 <= j < nodes.Length && NodeAddresses(nodes[..])[j] == a;
        assert nodes[j].address == a;
      }
    }
  }

  /** One accepted dependency. */
  method AddDependency(nodes: array<Node>, at: nat, dependency: Dependency)
    requires at < nodes.Length && nodes[at].address == dependency.from && Owns(nodes[..], at)
    modifies nodes
    ensures Extends(old(nodes[..]), [dependency], nodes[..])
  {
    ghost var before := nodes[..];
    var node := nodes[at];
    var dependsOn := CanonicalAddresses(node.dependsOn + [dependency.dependsOn]);
    var explicit := CanonicalAddresses(node.explicitDependsOn + [dependency.dependsOn]);
    var sources := node.dependencySources;
    if dependency.dependsOn !in sources {
      sources := sources[dependency.dependsOn := dependency.source];
    }
    nodes[at] := node.(dependsOn := dependsOn, explicitDependsOn := explicit, dependencySources := sources);
    ghost var after := nodes[..];
    CanonicalMembers(node.dependsOn + [dependency.dependsOn]);
    CanonicalMembers(node.explicitDependsOn + [dependency.dependsOn]);
    AddedOne(before, after, at, dependency);
  }

  lemma AddedOne(before: seq<Node>, after: seq<Node>, at: nat, dependency: Dependency)
    requires at < |before| == |after| && before[at].address == dependency.from && Owns(before, at)
    requires after == before[at := after[at]] && Frame(after[at]) == Frame(before[at])
    requires StrictlySorted(after[at].dependsOn) && StrictlySorted(after[at].explicitDependsOn)
    requires forall d :: d in after[at].dependsOn <==> d in before[at].dependsOn || d == dependency.dependsOn
    requires forall d :: d in after[at].explicitDependsOn <==> d in before[at].explicitDependsOn || d == dependency.dependsOn
    requires after[at].dependencySources ==
             if dependency.dependsOn in before[at].dependencySources then before[at].dependencySources
             else before[at].dependencySources[dependency.dependsOn := dependency.source]
    ensures Extends(before, [dependency], after)
  {
    hide StrictlySorted;
    forall i, d | 0 <= i < |before| ensures Gains(before[i], [dependency], Owns(before, i), after[i], d) {
      OneAsked(dependency, before[i].address, d);
      if i != at && before[i].address == dependency.from {
        assert i < at ==> !Owns(before, i);
      }
    }
    forall i | 0 <= i < |before| ensures Touched(before, [dependency], i) <==> i == at {
      if i == at { assert dependency in [dependency]; }
      assert i < at && before[i].address == dependency.from ==> !Owns(before, i);
    }
  }

  lemma OneAsked(dependency: Dependency, from: string, on: string)
    ensures FirstSource([dependency], from, on) ==
            if dependency.from == from && dependency.dependsOn == on then Some(dependency.source) else None
  {
    assert [dependency][..0] == [];
    assert FirstSource([], from, on) == None;
  }

  lemma AskedNext(s: seq<Dependency>, d: Dependency, from: string, on: string)
    ensures FirstSource(s + [d], from, on) ==
            if FirstSource(s, from, on).Some? then FirstSource(s, from, on) else FirstSource([d], from, on)
  {
    assert (s + [d])[..|s|] == s;
    OneAsked(d, from, on);
  }

  lemma GainsTrans(a: Node, s: seq<Dependency>, owner: bool, b: Node, d: Dependency, c: Node, on: string)
    requires a.address == b.address && Gains(a, s, owner, b, on) && Gains(b, [d], owner, c, on)
    ensures Gains(a, s + [d], owner, c, on)
  {
    AskedNext(s, d, a.address, on);
  }

  lemma ExtendsTrans(a: seq<Node>, s: seq<Dependency>, b: seq<Node>, d: Dependency, c: seq<Node>)
    requires Extends(a, s, b) && Extends(b, [d], c)
    ensures Extends(a, s + [d], c)
  {
    hide Gains;
    forall i | 0 <= i < |a| ensures b[i].address == a[i].address {
      assert Frame(b[i]) == Frame(a[i]);
    }
    forall i | 0 <= i < |a| ensures Owns(a, i) <==> Owns(b, i) {
    }
    forall i | 0 <= i < |a| ensures Frame(c[i]) == Frame(a[i]) {
      assert Frame(b[i]) == Frame(a[i]) && Frame(c[i]) == Frame(b[i]);
    }
    forall i | 0 <= i < |a| ensures Touched(a, s + [d], i) <==> Touched(a, s, i) || Touched(b, [d], i) {
      TouchedNext(a, s, d, i);
      assert Touched(b, [d], i) <==> Touched(a, [d], i);
    }
    forall i, on | 0 <= i < |a| ensures Gains(a[i], s + [d], Owns(a, i), c[i], on) {
      GainsTrans(a[i], s, Owns(a, i), b[i], d, c[i], on);
    }
  }

  lemma TouchedNext(nodes: seq<Node>, s: seq<Dependency>, d: Dependency, i: nat)
    requires i < |nodes|
    ensures Touched(nodes, s + [d], i) <==> Touched(nodes, s, i) || Touched(nodes, [d], i)
  {
    assert forall x :: x in s + [d] <==> x in s || x in [d];
  }

  /** `applyExplicitDependencies`: succeeds exactly when every dependency is inside the host and names
      existing nodes, and then adds exactly those dependencies to both lists. */
  method ApplyExplicitDependencies(host: string, nodes: array<Node>, dependencies: seq<Dependency>)
    returns (r: Result<(), DependencyError>)
    modifies nodes
    ensures r.Ok? <==> forall d :: d in dependencies ==> Accepted(host, old(nodes[..]), d)
    ensures r.Ok? ==> Extends(old(nodes[..]), dependencies, nodes[..])
    ensures r.Err? ==> exists k :: 0 <= k < |dependencies| && StopsAt(host, old(nodes[..]), dependencies, k, r.error, nodes[..])
  {
    ghost var before := nodes[..];
    var byAddress := IndexByAddress(nodes);
    for k := 0 to |dependencies|
      invariant Extends(before, dependencies[..k], nodes[..])
      invariant forall d :: d in dependencies[..k] ==> Accepted(host, before, d)
    {
      var dependency := dependencies[k];
      TakeNext(dependencies, k);
      assert dependency in dependencies;
      assert Accepted(host, before, dependency) ==> InScope(host, dependency.from) && InScope(host, dependency.dependsOn);
      if !InScope(host, dependency.from) || !InScope(host, dependency.dependsOn) {
        assert StopsAt(host, before, dependencies, k, CrossesHost(dependency), nodes[..]);
        return Err(CrossesHost(dependency));
      }
      if dependency.from !in byAddress {
        assert StopsAt(host, before, dependencies, k, UnknownDependent(dependency), nodes[..]);
        return Err(UnknownDependent(dependency));
      }
      if dependency.dependsOn !in byAddress {
        assert StopsAt(host, before, dependencies, k, UnknownTarget(dependency), nodes[..]);
        return Err(UnknownTarget(dependency));
      }
      SameOwner(before, dependencies[..k], nodes[..], byAddress[dependency.from]);
      ghost var middle := nodes[..];
      AddDependency(nodes, byAddress[dependency.from], dependency);
      ExtendsTrans(before, dependencies[..k], middle, dependency, nodes[..]);
    }
    assert dependencies[..|dependencies|] == dependencies;
    return Ok(());
  }

  lemma SameOwner(before: seq<Node>, deps: seq<Dependency>, after: seq<Node>, i: nat)
    requires Extends(before, deps, after) && i < |before| && Owns(before, i)
    ensures Owns(after, i) && after[i].address == before[i].address
  {
    forall j | 0 <= j < |before| ensures after[j].address == before[j].address {
      assert Frame(after[j]) == Frame(before[j]);
    }
  }

  /** Authored edges are always also graph edges, and name nodes of the graph. */
  lemma AuthoredStaysGraphEdge(host: string, before: seq<Node>, deps: seq<Dependency>, after: seq<Node>)
    requires Extends(before, deps, after) && forall d :: d in deps ==> Accepted(host, before, d)
    requires forall i :: 0 <= i < |before| ==> AuthoredIsGraphEdge(before, before[i])
    ensures NodeAddresses(after) == NodeAddresses(before)
    ensures forall i :: 0 <= i < |after| ==> AuthoredIsGraphEdge(after, after[i])
  {
    forall i | 0 <= i < |before| ensures after[i].address == before[i].address {
      assert Frame(after[i]) == Frame(before[i]);
    }
    assert NodeAddresses(after) == NodeAddresses(before);
    forall i | 0 <= i < |after| ensures AuthoredIsGraphEdge(after, after[i]) {
      forall d | d in after[i].explicitDependsOn ensures d in after[i].dependsOn && d in NodeAddresses(after) {
        assert AuthoredIsGraphEdge(before, before[i]);
        assert Gains(before[i], deps, Owns(before, i), after[i], d);
        if d !in before[i].explicitDependsOn {
          var x :| x in deps && x.from == before[i].address && x.dependsOn == d;
          assert Accepted(host, before, x);
        }
      }
    }
  }

  ghost predicate AuthoredIsGraphEdge(nodes: seq<Node>, node: Node)
  {
    forall d :: d in node.explicitDependsOn ==> d in node.dependsOn && d in NodeAddresses(nodes)
  }
}
