/**
 The search of the layering check (check-layering.py): which packages a package depends on, and
 by what chain.
 */
module Layering {
  import opened Basics
  import opened Orders

  type PackageId = string

  /** The normal dependencies of each package. */
  type Graph = map<PackageId, seq<PackageId>>

  function Deps(edges: Graph, id: PackageId): seq<PackageId> {
    if id in edges then edges[id] else []
  }

  /** A chain of dependencies from `root` to `id`. */
  predicate IsChain(edges: Graph, root: PackageId, id: PackageId, chain: seq<PackageId>) {
    && chain != [] && chain[0] == root && chain[|chain| - 1] == id
    && forall i | 0 <= i < |chain| - 1 :: chain[i + 1] in Deps(edges, chain[i])
  }

  ghost predicate Reaches(edges: Graph, root: PackageId, id: PackageId) {
    exists chain :: IsChain(edges, root, id, chain)
  }

  /** A chain that none is shorter than. */
  ghost predicate IsShortest(edges: Graph, root: PackageId, id: PackageId, chain: seq<PackageId>) {
    && IsChain(edges, root, id, chain)
    && forall other | IsChain(edges, root, id, other) :: |chain| <= |other|
  }

  type Paths = map<PackageId, seq<PackageId>>

  /** Every path found is a chain, and the queue is of packages found, none twice, nearest first. */
  ghost predicate Sound(edges: Graph, root: PackageId, paths: Paths, queue: seq<PackageId>) {
    && root in paths && paths[root] == [root]
    && (forall id | id in paths :: IsChain(edges, root, id, paths[id]))
    && (forall i | 0 <= i < |queue| :: queue[i] in paths)
    && (forall i, j | 0 <= i < j < |queue| :: queue[i] != queue[j] && |paths[queue[i]]| <= |paths[queue[j]]|)
  }

  /** The dependency is found, one step further than `id` at most. */
  predicate Followed(paths: Paths, id: PackageId, dep: PackageId) {
    id in paths && dep in paths && |paths[dep]| <= |paths[id]| + 1
  }

  /** Every package found that is not in `waiting` has all its dependencies followed. */
  ghost predicate Done(edges: Graph, paths: Paths, waiting: seq<PackageId>) {
    forall id, dep | id in paths && id !in waiting && dep in Deps(edges, id) :: Followed(paths, id, dep)
  }

  /** Nothing found is more than a step further than `id`. */
  predicate Near(paths: Paths, id: PackageId)
    requires id in paths
  {
    forall other | other in paths :: |paths[other]| <= |paths[id]| + 1
  }

  ghost function AllPackages(edges: Graph, root: PackageId): set<PackageId> {
    {root} + set id, i | id in edges.Keys && 0 <= i < |edges[id]| :: edges[id][i]
  }

  /** Once every package found has its dependencies followed, no chain leads out, or is shorter. */
  lemma {:induction false} ChainsAreFound(edges: Graph, root: PackageId, paths: Paths, id: PackageId,
          chain: seq<PackageId>)
    requires Sound(edges, root, paths, []) && Done(edges, paths, []) && IsChain(edges, root, id, chain)
    ensures id in paths && |paths[id]| <= |chain|
    decreases |chain|
  {
    if |chain| > 1 {
      var n := |chain| - 1;
      ChainsAreFound(edges, root, paths, chain[n - 1], chain[..n]);
      assert chain[n - 1 + 1] in Deps(edges, chain[n - 1]);
      assert Followed(paths, chain[n - 1], id);
    }
  }

  lemma LongerChain(edges: Graph, root: PackageId, id: PackageId, chain: seq<PackageId>, dep: PackageId)
    requires IsChain(edges, root, id, chain) && dep in Deps(edges, id)
    ensures IsChain(edges, root, dep, chain + [dep])
  {
    var longer := chain + [dep];
    forall i | 0 <= i < |longer| - 1
      ensures longer[i + 1] in Deps(edges, longer[i])
    {
      if i < |chain| - 1 {
        assert longer[i] == chain[i] && longer[i + 1] == chain[i + 1];
      } else {
        assert longer[i] == id;
      }
    }
  }

  /** The queue while the dependencies of `cur`, the nearest package, are followed. */
  ghost predicate Level(edges: Graph, paths: Paths, cur: PackageId, queue: seq<PackageId>) {
    && cur in paths && cur !in queue && Near(paths, cur)
    && (forall i | 0 <= i < |queue| :: queue[i] in paths && |paths[cur]| <= |paths[queue[i]]|)
    && Done(edges, paths, queue + [cur])
  }

  /** One more package found, from `cur`. */
  lemma OneFound(edges: Graph, root: PackageId, paths: Paths, cur: PackageId, queue: seq<PackageId>, dep: PackageId)
    requires Sound(edges, root, paths, queue) && Level(edges, paths, cur, queue)
    requires dep in Deps(edges, cur) && dep !in paths
    ensures var more := paths[dep := paths[cur] + [dep]];
            Sound(edges, root, more, queue + [dep]) && Level(edges, more, cur, queue + [dep])
  {
    var more := paths[dep := paths[cur] + [dep]];
    var longer := queue + [dep];
    LongerChain(edges, root, cur, paths[cur], dep);
    hide IsChain;
    assert forall i | 0 <= i < |longer| :: longer[i] == if i < |queue| then queue[i] else dep;
    forall id, to | id in more && id !in longer + [cur] && to in Deps(edges, id)
      ensures Followed(more, id, to)
    {
      assert id !in queue + [cur];
      assert Followed(paths, id, to);
    }
  }

  lemma NowDone(edges: Graph, paths: Paths, cur: PackageId, queue: seq<PackageId>)
    requires Level(edges, paths, cur, queue)
    requires forall i | 0 <= i < |Deps(edges, cur)| :: Followed(paths, cur, Deps(edges, cur)[i])
    ensures Done(edges, paths, queue)
    ensures queue != [] ==> Near(paths, queue[0])
  {
    forall id, dep | id in paths && id !in queue && dep in Deps(edges, id)
      ensures Followed(paths, id, dep)
    {
      assert id != cur ==> id !in queue + [cur];
    }
  }

  lemma PackageKnown(edges: Graph, root: PackageId, cur: PackageId, dep: PackageId)
    requires dep in Deps(edges, cur)
    ensures dep in AllPackages(edges, root)
  {
    var i :| 0 <= i < |edges[cur]| && edges[cur][i] == dep;
  }

  /** Part of the way through the dependencies of `cur`, the first of `waiting`: `k` of them are followed. */
  ghost predicate Following(edges: Graph, root: PackageId, before: Paths, waiting: seq<PackageId>, cur: PackageId,
                            k: nat, paths: Paths, queue: seq<PackageId>)
  {
    && Sound(edges, root, paths, queue) && Level(edges, paths, cur, queue)
    && k <= |Deps(edges, cur)| && (forall i | 0 <= i < k :: Followed(paths, cur, Deps(edges, cur)[i]))
    && before.Keys <= paths.Keys <= AllPackages(edges, root)
    && (|queue| < |waiting| || before.Keys < paths.Keys)
  }

  lemma FollowingOne(edges: Graph, root: PackageId, before: Paths, waiting: seq<PackageId>, cur: PackageId,
                     k: nat, paths: Paths, queue: seq<PackageId>)
    requires Following(edges, root, before, waiting, cur, k, paths, queue) && k < |Deps(edges, cur)|
    ensures cur in paths
    ensures var next := Deps(edges, cur)[k];
            if next in paths then Following(edges, root, before, waiting, cur, k + 1, paths, queue)
            else Following(edges, root, before, waiting, cur, k + 1, paths[next := paths[cur] + [next]], queue + [next])
  {
    hide Sound, IsChain, AllPackages, Done;
    var next := Deps(edges, cur)[k];
    PackageKnown(edges, root, cur, next);
    if next in paths {
      NearIsFollowed(edges, paths, cur, queue, next);
    } else {
      OneFound(edges, root, paths, cur, queue, next);
      assert paths[next := paths[cur] + [next]].Keys == paths.Keys + {next};
    }
  }

  /** Follows the dependencies of the nearest package in the queue. */
  method Follow(root: PackageId, edges: Graph, before: Paths, waiting: seq<PackageId>)
    returns (paths: Paths, queue: seq<PackageId>)
    requires waiting != [] && Sound(edges, root, before, waiting) && Done(edges, before, waiting)
    requires Near(before, waiting[0]) && before.Keys <= AllPackages(edges, root)
    ensures Sound(edges, root, paths, queue) && Done(edges, paths, queue)
    ensures queue != [] ==> Near(paths, queue[0])
    ensures before.Keys <= paths.Keys <= AllPackages(edges, root)
    ensures paths.Keys == before.Keys ==> |queue| < |waiting|
  {
    var cur;
    paths, cur, queue := before, waiting[0], waiting[1..];
    Popped(edges, root, paths, waiting);
    assert Following(edges, root, before, waiting, cur, 0, paths, queue);
    hide Sound, Level, Done, IsChain, AllPackages, Following, Near;
    var deps := Deps(edges, cur);
    var k := 0;
    while k < |deps|
      invariant k <= |deps|
      invariant Following(edges, root, before, waiting, cur, k, paths, queue)
    {
      FollowingOne(edges, root, before, waiting, cur, k, paths, queue);
      var next := deps[k];
      if next !in paths {
        paths := paths[next := paths[cur] + [next]];
        queue := queue + [next];
      }
      k := k + 1;
    }
    AllFollowed(edges, root, before, waiting, cur, paths, queue);
  }

  lemma AllFollowed(edges: Graph, root: PackageId, before: Paths, waiting: seq<PackageId>, cur: PackageId,
                  paths: Paths, queue: seq<PackageId>)
    requires Following(edges, root, before, waiting, cur, |Deps(edges, cur)|, paths, queue)
    ensures Sound(edges, root, paths, queue) && Done(edges, paths, queue)
    ensures queue != [] ==> queue[0] in paths && Near(paths, queue[0])
    ensures before.Keys <= paths.Keys <= AllPackages(edges, root)
    ensures paths.Keys == before.Keys ==> |queue| < |waiting|
  {
    NowDone(edges, paths, cur, queue);
  }

  lemma NearIsFollowed(edges: Graph, paths: Paths, cur: PackageId, queue: seq<PackageId>, next: PackageId)
    requires Level(edges, paths, cur, queue) && next in paths
    ensures Followed(paths, cur, next)
  {
  }

  lemma Popped(edges: Graph, root: PackageId, paths: Paths, waiting: seq<PackageId>)
    requires waiting != [] && Sound(edges, root, paths, waiting) && Done(edges, paths, waiting)
             && Near(paths, waiting[0])
    ensures Sound(edges, root, paths, waiting[1..]) && Level(edges, paths, waiting[0], waiting[1..])
  {
    hide IsChain;
    var cur, queue := waiting[0], waiting[1..];
    assert forall i | 0 <= i < |queue| :: queue[i] == waiting[i + 1];
    assert forall id | id in waiting :: id in queue + [cur];
  }

  lemma Found(edges: Graph, root: PackageId, paths: Paths)
    requires Sound(edges, root, paths, []) && Done(edges, paths, [])
    ensures forall id :: id in paths <==> Reaches(edges, root, id)
    ensures forall id | id in paths :: IsShortest(edges, root, id, paths[id])
  {
    hide IsChain;
    forall id, chain | IsChain(edges, root, id, chain)
      ensures id in paths && |paths[id]| <= |chain|
    {
      ChainsAreFound(edges, root, paths, id, chain);
    }
  }

  /**
   Every package reachable from `root` but `root` itself, with a shortest chain to it; the
   search ends on any graph, with cycles or with packages that have no entry.
   */
  method ShortestPaths(root: PackageId, edges: Graph) returns (paths: Paths)
    ensures forall id :: id in paths <==> id != root && Reaches(edges, root, id)
    ensures forall id | id in paths :: IsShortest(edges, root, id, paths[id])
  {
    paths := map[root := [root]];
    var queue := [root];
    ghost var all := AllPackages(edges, root);
    hide AllPackages;
    assert root in all by { RootKnown(edges, root); }
    while queue != []
      invariant Sound(edges, root, paths, queue) && Done(edges, paths, queue)
      invariant queue != [] ==> queue[0] in paths && Near(paths, queue[0])
      invariant paths.Keys <= all
      decreases all - paths.Keys, |queue|
    {
      paths, queue := Follow(root, edges, paths, queue);
    }
    Found(edges, root, paths);
    paths := paths - {root};
  }

  lemma RootKnown(edges: Graph, root: PackageId)
    ensures root in AllPackages(edges, root)
  {
  }

  // The check.

  /** One dependency of a node: the kinds it is needed for, where none is a normal one. */
  datatype Dep = Dep(pkg: PackageId, kinds: seq<Option<string>>)

  datatype Node = Node(id: PackageId, deps: seq<Dep>)

  /** A dependency that a package declares. */
  datatype Declared = Declared(name: string, kind: Option<string>)

  datatype Package = Package(id: PackageId, name: string, dependencies: seq<Declared>)

  datatype Metadata = Metadata(packages: seq<Package>, members: seq<PackageId>, nodes: seq<Node>)

  datatype Violation = Violation(crate: string, forbidden: string, chain: string)

  datatype Complaint = NoRule(crate: string) | NeedsBinary(crate: string, kind: string)

  predicate IsNormal(dep: Dep) {
    dep.kinds == [] || None in dep.kinds
  }

  /** `to` is a normal dependency of `from`, by the last entry that `from` has. */
  ghost predicate Needs(nodes: seq<Node>, from: PackageId, to: PackageId) {
    exists i :: IsLastNode(nodes, from, i)
                && exists dep :: dep in nodes[i].deps && dep.pkg == to && (dep.kinds == [] || None in dep.kinds)
  }

  predicate IsLastNode(nodes: seq<Node>, id: PackageId, i: int) {
    0 <= i < |nodes| && nodes[i].id == id && forall j | i < j < |nodes| :: nodes[j].id != id
  }

  /** The packages that some dependencies need in the normal way. */
  function NormalIds(deps: seq<Dep>): seq<PackageId>
    decreases |deps|
  {
    if deps == [] then []
    else
      var last := deps[|deps| - 1];
      NormalIds(deps[..|deps| - 1]) + if IsNormal(last) then [last.pkg] else []
  }

  function NameOf(names: map<PackageId, string>, id: PackageId): string {
    if id in names then names[id] else ""
  }

  /** By name, and by id where the names are the same. */
  function ByName(names: map<PackageId, string>): (PackageId, PackageId) -> bool {
    (a, b) => Then(CompareTexts(NameOf(names, a), NameOf(names, b)), CompareTexts(a, b)) != Greater
  }

  lemma ByNameIsOrder(names: map<PackageId, string>)
    ensures IsOrder(ByName(names))
  {
    hide CompareTexts, NameOf;
    forall a: PackageId, b: PackageId, c: PackageId
      ensures ByName(names)(a, b) || ByName(names)(b, a)
      ensures ByName(names)(a, b) && ByName(names)(b, c) ==> ByName(names)(a, c)
    {
      TextsFlip(NameOf(names, a), NameOf(names, b));
      TextsFlip(a, b);
      TextsChain(NameOf(names, a), NameOf(names, b), NameOf(names, c));
      TextsChain(a, b, c);
    }
  }

  function EdgesOf(names: map<PackageId, string>, nodes: seq<Node>): Graph
    decreases |nodes|
  {
    if nodes == [] then map[]
    else
      var last := nodes[|nodes| - 1];
      EdgesOf(names, nodes[..|nodes| - 1])[last.id := SortedBy(ByName(names), NormalIds(last.deps))]
  }

  method NormalDeps(deps: seq<Dep>) returns (normal: seq<PackageId>)
    ensures normal == NormalIds(deps)
  {
    normal := [];
    for i := 0 to |deps|
      invariant normal == NormalIds(deps[..i])
    {
      assert deps[..i + 1][..i] == deps[..i];
      if IsNormal(deps[i]) {
        normal := normal + [deps[i].pkg];
      }
    }
    assert deps[..|deps|] == deps;
  }

  method NormalGraph(names: map<PackageId, string>, nodes: seq<Node>) returns (edges: Graph)
    requires forall node, dep | node in nodes && dep in node.deps :: dep.pkg in names
    ensures edges == EdgesOf(names, nodes)
  {
    edges := map[];
    for i := 0 to |nodes|
      invariant edges == EdgesOf(names, nodes[..i])
    {
      assert nodes[..i + 1][..i] == nodes[..i];
      var normal := NormalDeps(nodes[i].deps);
      edges := edges[nodes[i].id := SortedBy(ByName(names), normal)];
    }
    assert nodes[..|nodes|] == nodes;
  }

  /** The dependencies of each node are ordered by name, and are those of its last entry, as often as listed there. */
  lemma {:induction false} EdgesAreSorted(names: map<PackageId, string>, nodes: seq<Node>, i: int)
    requires 0 <= i < |nodes| && IsLastNode(nodes, nodes[i].id, i)
    ensures var deps := Deps(EdgesOf(names, nodes), nodes[i].id);
            Ordered(ByName(names), deps) && multiset(deps) == multiset(NormalIds(nodes[i].deps))
    decreases |nodes|
  {
    hide ByName, SortedBy, Ordered, NormalIds;
    var n := |nodes| - 1;
    if i == n {
      ByNameIsOrder(names);
      SortedIsOrdered(ByName(names), NormalIds(nodes[n].deps));
      SortedKeeps(ByName(names), NormalIds(nodes[n].deps));
    } else {
      assert nodes[..n][i] == nodes[i] && IsLastNode(nodes[..n], nodes[i].id, i);
      EdgesAreSorted(names, nodes[..n], i);
    }
  }

  lemma {:induction false} NormalIdsAre(deps: seq<Dep>)
    ensures forall to :: to in NormalIds(deps) <==> exists dep :: dep in deps && IsNormal(dep) && dep.pkg == to
    decreases |deps|
  {
    if deps != [] {
      NormalIdsAre(deps[..|deps| - 1]);
      assert deps == deps[..|deps| - 1] + [deps[|deps| - 1]];
    }
  }

  /** The graph holds exactly the normal dependencies of each node. */
  lemma {:induction false} EdgesAreNeeds(names: map<PackageId, string>, nodes: seq<Node>)
    ensures forall from, to :: to in Deps(EdgesOf(names, nodes), from) <==> Needs(nodes, from, to)
    decreases |nodes|
  {
    if nodes != [] {
      var n := |nodes| - 1;
      EdgesAreNeeds(names, nodes[..n]);
      NormalIdsAre(nodes[n].deps);
      SortedKeeps(ByName(names), NormalIds(nodes[n].deps));
      SameMembers(SortedBy(ByName(names), NormalIds(nodes[n].deps)), NormalIds(nodes[n].deps));
      NeedsOneMore(nodes, n);
      assert nodes[..n + 1] == nodes;
      hide Needs, NormalIds, SortedBy;
      var before, edges := EdgesOf(names, nodes[..n]), EdgesOf(names, nodes);
      forall from, to
        ensures to in Deps(edges, from) <==> Needs(nodes, from, to)
      {
        assert from != nodes[n].id ==> Deps(edges, from) == Deps(before, from);
      }
    }
  }

  lemma NeedsOneMore(nodes: seq<Node>, i: nat)
    requires i < |nodes|
    ensures forall from, to ::
              Needs(nodes[..i + 1], from, to) <==>
              if from == nodes[i].id then exists dep :: dep in nodes[i].deps && IsNormal(dep) && dep.pkg == to
              else Needs(nodes[..i], from, to)
  {
    var all, before := nodes[..i + 1], nodes[..i];
    assert forall k | 0 <= k < i :: all[k] == before[k];
    forall from, to
      ensures Needs(all, from, to) <==>
              if from == nodes[i].id then exists dep :: dep in nodes[i].deps && IsNormal(dep) && dep.pkg == to
              else Needs(before, from, to)
    {
      assert IsLastNode(all, from, i) <==> from == nodes[i].id;
      assert forall k | 0 <= k < i :: IsLastNode(all, from, k) <==> IsLastNode(before, from, k) && from != nodes[i].id;
    }
  }

  /** The name of each package, by the last one with its id. */
  function Names(packages: seq<Package>): map<PackageId, string>
    decreases |packages|
  {
    if packages == [] then map[]
    else
      var last := packages[|packages| - 1];
      Names(packages[..|packages| - 1])[last.id := last.name]
  }

  /** Every id that is used is that of a package. */
  predicate WellFormed(meta: Metadata) {
    && (forall id | id in meta.members :: id in Names(meta.packages))
    && (forall node, dep | node in meta.nodes && dep in node.deps :: dep.pkg in Names(meta.packages))
  }

  function ChainText(names: map<PackageId, string>, chain: seq<PackageId>): string
    requires forall i | 0 <= i < |chain| :: chain[i] in names
  {
    Join(seq(|chain|, i requires 0 <= i < |chain| => names[chain[i]]), " -> ")
  }

  /** The workspace crate `id` has a rule against `dep`, another package, and reaches it. */
  ghost predicate Breaks(names: map<PackageId, string>, edges: Graph, rules: map<string, set<string>>, id: PackageId,
                         dep: PackageId) {
    && id in names && dep in names && names[id] in rules && names[dep] in rules[names[id]]
    && dep != id && Reaches(edges, id, dep)
  }

  /** `v` names the two crates and a shortest chain between them. */
  ghost predicate Tells(names: map<PackageId, string>, edges: Graph, v: Violation, id: PackageId, dep: PackageId) {
    && id in names && dep in names && v.crate == names[id] && v.forbidden == names[dep]
    && exists chain :: IsShortest(edges, id, dep, chain) && (forall i | 0 <= i < |chain| :: chain[i] in names)
                       && v.chain == ChainText(names, chain)
  }

  /** `v` is a breach by the workspace crate `id`. */
  ghost predicate IsBreach(names: map<PackageId, string>, edges: Graph, rules: map<string, set<string>>,
                           id: PackageId, v: Violation) {
    exists dep :: Breaks(names, edges, rules, id, dep) && Tells(names, edges, v, id, dep)
  }

  /** Every breach by the workspace crate `id` is told. */
  ghost predicate AllTold(names: map<PackageId, string>, edges: Graph, rules: map<string, set<string>>, id: PackageId,
                          violations: set<Violation>)
  {
    forall dep | Breaks(names, edges, rules, id, dep) :: exists v :: v in violations && Tells(names, edges, v, id, dep)
  }

  lemma MoreAreTold(names: map<PackageId, string>, edges: Graph, rules: map<string, set<string>>, id: PackageId,
                    violations: set<Violation>, more: set<Violation>)
    requires AllTold(names, edges, rules, id, violations)
    ensures AllTold(names, edges, rules, id, violations + more)
    ensures AllTold(names, edges, rules, id, more + violations)
  {
    hide Breaks, Tells;
    forall dep | Breaks(names, edges, rules, id, dep)
      ensures exists v :: v in violations + more && Tells(names, edges, v, id, dep)
    {
      var v :| v in violations && Tells(names, edges, v, id, dep);
      assert v in violations + more;
    }
    assert violations + more == more + violations;
  }

  lemma {:induction false} ChainHasNames(names: map<PackageId, string>, edges: Graph, root: PackageId, id: PackageId,
          chain: seq<PackageId>)
    requires IsChain(edges, root, id, chain) && root in names
    requires forall from, to | to in Deps(edges, from) :: to in names
    ensures forall i | 0 <= i < |chain| :: chain[i] in names
  {
    forall i | 0 < i < |chain|
      ensures chain[i] in names
    {
      assert chain[i - 1 + 1] in Deps(edges, chain[i - 1]);
    }
  }

  /** The violations of one workspace crate that has a rule. */
  method CheckMember(names: map<PackageId, string>, edges: Graph, rules: map<string, set<string>>, id: PackageId)
    returns (violations: set<Violation>)
    requires id in names && names[id] in rules
    requires forall from, to | to in Deps(edges, from) :: to in names
    ensures forall v | v in violations :: IsBreach(names, edges, rules, id, v)
    ensures AllTold(names, edges, rules, id, violations)
  {
    var paths := ShortestPaths(id, edges);
    violations := {};
    var todo := paths.Keys;
    hide IsShortest, ChainText, IsChain;
    while todo != {}
      invariant todo <= paths.Keys
      invariant forall v | v in violations :: IsBreach(names, edges, rules, id, v)
      invariant forall dep | Breaks(names, edges, rules, id, dep) && dep !in todo ::
                  exists v :: v in violations && Tells(names, edges, v, id, dep)
      decreases todo
    {
      var dep :| dep in todo;
      var chain := paths[dep];
      NamedAlong(names, edges, id, dep, chain);
      if names[dep] in rules[names[id]] {
        var v := Violation(names[id], names[dep], ChainText(names, chain));
        assert Breaks(names, edges, rules, id, dep) && Tells(names, edges, v, id, dep);
        violations := violations + {v};
      }
      todo := todo - {dep};
    }
  }

  lemma NamedAlong(names: map<PackageId, string>, edges: Graph, root: PackageId, id: PackageId, chain: seq<PackageId>)
    requires IsShortest(edges, root, id, chain) && root in names
    requires forall from, to | to in Deps(edges, from) :: to in names
    ensures id in names && forall i | 0 <= i < |chain| :: chain[i] in names
  {
    ChainHasNames(names, edges, root, id, chain);
    assert chain[|chain| - 1] == id;
  }

  /** A workspace package but the binary declares that it needs the binary. */
  ghost predicate WantsBinary(members: seq<PackageId>, packages: seq<Package>, binary: string, c: Complaint) {
    exists k, dep :: Wanting(members, packages, binary, k, dep, c)
  }

  /** The `k`th package declares `dep`, which is the binary. */
  predicate Wanting(members: seq<PackageId>, packages: seq<Package>, binary: string, k: int, dep: Declared,
                    c: Complaint)
  {
    && 0 <= k < |packages| && dep in packages[k].dependencies
    && packages[k].id in members && packages[k].name != binary && dep.name == binary
    && c == NeedsBinary(packages[k].name, KindText(dep.kind))
  }

  /** A workspace package has no rule. */
  ghost predicate WantsRule(meta: Metadata, rules: map<string, set<string>>, c: Complaint) {
    var names := Names(meta.packages);
    exists id :: id in meta.members && id in names && names[id] !in rules && c == NoRule(names[id])
  }

  function KindText(kind: Option<string>): string {
    if kind.None? || kind.value == "" then "normal" else kind.value
  }

  // The order of what is reported.

  /** The ids, each where it comes first. */
  function Distinct(ids: seq<PackageId>): (r: seq<PackageId>)
    ensures forall id :: id in r <==> id in ids
    decreases |ids|
  {
    if ids == [] then []
    else
      var before, last := Distinct(ids[..|ids| - 1]), ids[|ids| - 1];
      assert ids == ids[..|ids| - 1] + [last];
      if last in before then before else before + [last]
  }

  function ByNameAlone(names: map<PackageId, string>): (PackageId, PackageId) -> bool {
    (a, b) => CompareTexts(NameOf(names, a), NameOf(names, b)) != Greater
  }

  /** The workspace crates in the order they are checked. */
  function MemberOrder(names: map<PackageId, string>, members: seq<PackageId>): seq<PackageId> {
    SortedBy(ByNameAlone(names), Distinct(members))
  }

  lemma MembersInOrder(names: map<PackageId, string>, members: seq<PackageId>)
    ensures Ordered(ByNameAlone(names), MemberOrder(names, members))
    ensures forall id :: id in MemberOrder(names, members) <==> id in members
  {
    forall a: PackageId, b: PackageId, c: PackageId
      ensures ByNameAlone(names)(a, b) || ByNameAlone(names)(b, a)
      ensures ByNameAlone(names)(a, b) && ByNameAlone(names)(b, c) ==> ByNameAlone(names)(a, c)
    {
      TextsFlip(NameOf(names, a), NameOf(names, b));
      TextsChain(NameOf(names, a), NameOf(names, b), NameOf(names, c));
      hide CompareTexts, NameOf;
    }
    SortedIsOrdered(ByNameAlone(names), Distinct(members));
    SortedKeeps(ByNameAlone(names), Distinct(members));
    SameMembers(MemberOrder(names, members), Distinct(members));
  }

  /** The complaints about crates without a rule, in the order of `ids`. */
  function NoRules(names: map<PackageId, string>, rules: map<string, set<string>>, ids: seq<PackageId>): seq<Complaint>
    decreases |ids|
  {
    if ids == [] then []
    else
      var crate := NameOf(names, ids[|ids| - 1]);
      NoRules(names, rules, ids[..|ids| - 1]) + if crate in rules then [] else [NoRule(crate)]
  }

  lemma {:induction false} NoRulesAre(names: map<PackageId, string>, rules: map<string, set<string>>,
                                      ids: seq<PackageId>)
    ensures forall c :: c in NoRules(names, rules, ids)
                        <==> exists id :: id in ids && NameOf(names, id) !in rules && c == NoRule(NameOf(names, id))
    decreases |ids|
  {
    if ids != [] {
      NoRulesAre(names, rules, ids[..|ids| - 1]);
      assert ids == ids[..|ids| - 1] + [ids[|ids| - 1]];
    }
  }

  /** The complaints about the binary among what a package declares. */
  function BinaryIn(name: string, binary: string, declared: seq<Declared>): seq<Complaint>
    decreases |declared|
  {
    if declared == [] then []
    else
      var last := declared[|declared| - 1];
      BinaryIn(name, binary, declared[..|declared| - 1])
      + if last.name == binary then [NeedsBinary(name, KindText(last.kind))] else []
  }

  /** Those of all packages, in order. */
  function BinaryErrors(members: seq<PackageId>, packages: seq<Package>, binary: string): seq<Complaint>
    decreases |packages|
  {
    if packages == [] then []
    else
      var last := packages[|packages| - 1];
      BinaryErrors(members, packages[..|packages| - 1], binary)
      + if last.id in members && last.name != binary then BinaryIn(last.name, binary, last.dependencies) else []
  }

  lemma {:induction false} BinaryInAre(name: string, binary: string, declared: seq<Declared>)
    ensures forall c :: c in BinaryIn(name, binary, declared) <==>
              exists dep :: dep in declared && dep.name == binary && c == NeedsBinary(name, KindText(dep.kind))
    decreases |declared|
  {
    if declared != [] {
      BinaryInAre(name, binary, declared[..|declared| - 1]);
      assert declared == declared[..|declared| - 1] + [declared[|declared| - 1]];
    }
  }

  lemma {:induction false} BinaryErrorsAre(members: seq<PackageId>, packages: seq<Package>, binary: string)
    ensures forall c :: c in BinaryErrors(members, packages, binary) <==> WantsBinary(members, packages, binary, c)
    decreases |packages|
  {
    if packages != [] {
      var n := |packages| - 1;
      var before, last := packages[..n], packages[n];
      BinaryErrorsAre(members, before, binary);
      BinaryInAre(last.name, binary, last.dependencies);
      var more := if last.id in members && last.name != binary
        then BinaryIn(last.name, binary, last.dependencies) else [];
      forall c
        ensures c in BinaryErrors(members, before, binary) + more <==> WantsBinary(members, packages, binary, c)
      {
        assert forall k, dep | k != n ::
            Wanting(members, packages, binary, k, dep, c) <==> Wanting(members, before, binary, k, dep, c);
        assert c in more <==> exists dep :: Wanting(members, packages, binary, n, dep, c) by {
          assert forall dep :: Wanting(members, packages, binary, n, dep, c) <==>
              && last.id in members && last.name != binary && dep in last.dependencies && dep.name == binary
              && c == NeedsBinary(last.name, KindText(dep.kind));
        }
      }
    }
  }

  /** By crate, by what is forbidden to it, and by the chain. */
  function CompareViolations(v: Violation, w: Violation): Ordering {
    Then(CompareTexts(v.crate, w.crate), Then(CompareTexts(v.forbidden, w.forbidden), CompareTexts(v.chain, w.chain)))
  }

  function ViolationOrder(): (Violation, Violation) -> bool {
    (v, w) => CompareViolations(v, w) != Greater
  }

  lemma ViolationOrderIsOrder()
    ensures IsOrder(ViolationOrder())
  {
    hide CompareTexts;
    forall u: Violation, v: Violation, w: Violation
      ensures ViolationOrder()(u, v) || ViolationOrder()(v, u)
      ensures ViolationOrder()(u, v) && ViolationOrder()(v, w) ==> ViolationOrder()(u, w)
    {
      TextsFlip(u.crate, v.crate);
      TextsFlip(u.forbidden, v.forbidden);
      TextsFlip(u.chain, v.chain);
      TextsChain(u.crate, v.crate, w.crate);
      TextsChain(u.forbidden, v.forbidden, w.forbidden);
      TextsChain(u.chain, v.chain, w.chain);
    }
  }

  /** The violations of a set, in order, each once. */
  method InOrder(all: set<Violation>) returns (violations: seq<Violation>)
    ensures Ordered(ViolationOrder(), violations) && multiset(violations) == multiset(all)
  {
    ViolationOrderIsOrder();
    hide ViolationOrder, IsOrder, Ordered;
    violations := [];
    var todo := all;
    assert Ordered(ViolationOrder(), violations) by { NoneToOrder(); }
    while todo != {}
      invariant todo <= all
      invariant Ordered(ViolationOrder(), violations) && multiset(violations) == multiset(all - todo)
      decreases todo
    {
      var v :| v in todo;
      PutIsOrdered(ViolationOrder(), v, violations);
      PutKeeps(ViolationOrder(), v, violations);
      violations := Put(ViolationOrder(), v, violations);
      assert all - (todo - {v}) == (all - todo) + {v};
      todo := todo - {v};
    }
    assert all - todo == all;
  }

  lemma NoneToOrder()
    ensures Ordered(ViolationOrder(), [])
  {
  }

  /**
   The check reports a violation exactly when a workspace crate reaches a package that its rule
   forbids through normal dependencies, each once, in order and with a shortest chain to it;
   and it complains exactly about the workspace crates with no rule, in the order of their
   names, and then about those that declare the binary, in the order they are listed.
   */
  method Check(meta: Metadata, rules: map<string, set<string>>, binary: string)
    returns (violations: seq<Violation>, errors: seq<Complaint>)
    requires WellFormed(meta)
    ensures Ordered(ViolationOrder(), violations) && forall v :: multiset(violations)[v] <= 1
    ensures var names, edges := Names(meta.packages), EdgesOf(Names(meta.packages), meta.nodes);
            && (forall v | v in violations :: exists id :: id in meta.members && IsBreach(names, edges, rules, id, v))
            && (forall id | id in meta.members :: AllTold(names, edges, rules, id, set v | v in violations))
    ensures errors == NoRules(Names(meta.packages), rules, MemberOrder(Names(meta.packages), meta.members))
                      + BinaryErrors(meta.members, meta.packages, binary)
    ensures forall c :: c in errors <==>
            WantsRule(meta, rules, c) || WantsBinary(meta.members, meta.packages, binary, c)
  {
    var names := Names(meta.packages);
    var graph := NormalGraph(names, meta.nodes);
    var members := MemberOrder(names, meta.members);
    NeededHasName(meta);
    MembersInOrder(names, meta.members);
    hide EdgesOf, IsBreach, AllTold, Names, WantsBinary, MemberOrder, BinaryErrors, Ordered, ViolationOrder;
    var all;
    all, errors := CheckMembers(names, graph, rules, members);
    violations := InOrder(all);
    EachOnce(violations, all);
    NoRulesAre(names, rules, members);
    BinaryErrorsAre(meta.members, meta.packages, binary);
    var wanting := DeclaresBinary(meta, binary);
    errors := errors + wanting;
  }

  /** The workspace crates, one after another. */
  method CheckMembers(names: map<PackageId, string>, edges: Graph, rules: map<string, set<string>>,
                      members: seq<PackageId>)
    returns (all: set<Violation>, errors: seq<Complaint>)
    requires forall id | id in members :: id in names
    requires forall from, to | to in Deps(edges, from) :: to in names
    ensures forall v | v in all :: exists id :: id in members && IsBreach(names, edges, rules, id, v)
    ensures forall id | id in members :: AllTold(names, edges, rules, id, all)
    ensures errors == NoRules(names, rules, members)
  {
    hide IsBreach, AllTold;
    all, errors := {}, [];
    for i := 0 to |members|
      invariant forall v | v in all :: exists id :: id in members && IsBreach(names, edges, rules, id, v)
      invariant forall id | id in members[..i] :: AllTold(names, edges, rules, id, all)
      invariant errors == NoRules(names, rules, members[..i])
    {
      var id := members[i];
      assert members[..i + 1] == members[..i] + [id];
      ghost var before := all;
      var more: set<Violation> := {};
      if names[id] in rules {
        more := CheckMember(names, edges, rules, id);
      } else {
        NoRuleNoBreach(names, edges, rules, id);
        errors := errors + [NoRule(names[id])];
      }
      all := all + more;
      OneMoreTold(names, edges, rules, members[..i], id, before, more);
    }
    assert members[..|members|] == members;
  }

  lemma OneMoreTold(names: map<PackageId, string>, edges: Graph, rules: map<string, set<string>>, ids: seq<PackageId>,
                    id: PackageId, before: set<Violation>, more: set<Violation>)
    requires forall other | other in ids :: AllTold(names, edges, rules, other, before)
    requires AllTold(names, edges, rules, id, more)
    ensures forall other | other in ids + [id] :: AllTold(names, edges, rules, other, before + more)
  {
    hide AllTold;
    forall other | other in ids + [id]
      ensures AllTold(names, edges, rules, other, before + more)
    {
      if other == id {
        MoreAreTold(names, edges, rules, id, more, before);
      } else {
        MoreAreTold(names, edges, rules, other, before, more);
      }
    }
  }

  lemma EachOnce(violations: seq<Violation>, all: set<Violation>)
    requires multiset(violations) == multiset(all)
    ensures (forall v :: multiset(violations)[v] <= 1) && (set v | v in violations) == all
    ensures forall v :: v in violations <==> v in all
  {
    forall v
      ensures v in violations <==> v in all
    {
      assert v in violations <==> v in multiset(violations);
      assert v in all <==> v in multiset(all);
    }
  }

  lemma NoRuleNoBreach(names: map<PackageId, string>, edges: Graph, rules: map<string, set<string>>, id: PackageId)
    requires id in names && names[id] !in rules
    ensures AllTold(names, edges, rules, id, {})
  {
  }

  lemma NeededHasName(meta: Metadata)
    requires WellFormed(meta)
    ensures forall from, to | to in Deps(EdgesOf(Names(meta.packages), meta.nodes), from) :: to in Names(meta.packages)
    ensures forall id | id in meta.members :: id in Names(meta.packages)
  {
    hide EdgesOf;
    EdgesAreNeeds(Names(meta.packages), meta.nodes);
  }

  method DeclaresBinary(meta: Metadata, binary: string) returns (errors: seq<Complaint>)
    ensures errors == BinaryErrors(meta.members, meta.packages, binary)
  {
    errors := [];
    for i := 0 to |meta.packages|
      invariant errors == BinaryErrors(meta.members, meta.packages[..i], binary)
    {
      var pkg := meta.packages[i];
      assert meta.packages[..i + 1][..i] == meta.packages[..i];
      if pkg.id !in meta.members || pkg.name == binary {
        continue;
      }
      ghost var before := errors;
      for j := 0 to |pkg.dependencies|
        invariant errors == before + BinaryIn(pkg.name, binary, pkg.dependencies[..j])
      {
        var dep := pkg.dependencies[j];
        assert pkg.dependencies[..j + 1][..j] == pkg.dependencies[..j];
        if dep.name == binary {
          errors := errors + [NeedsBinary(pkg.name, KindText(dep.kind))];
        }
      }
      assert pkg.dependencies[..|pkg.dependencies|] == pkg.dependencies;
    }
    assert meta.packages[..|meta.packages|] == meta.packages;
  }
}
