/** The graph of workspace crates: how `metadata::build` makes it from what Cargo reports, and how
    `in_tree_crates` walks it. */
module CrateGraph {
  import opened Options

  type Name = string

  /** `local` stands for `Crate::is_local`: the crate lives in the source tree. */
  datatype Crate = Crate(id: string, local: bool, deps: set<Name>)

  /** Every dependency is a crate of the map. */
  ghost predicate DepsClosed(crates: map<Name, Crate>) {
    forall x, y :: x in crates && y in crates[x].deps ==> y in crates
  }

  // ---- metadata::build ----

  /** A package of the metadata. Those of the workspace have no source; `local` stands for where its
      manifest is. */
  datatype Package = Package(id: string, name: Name, source: Option<string>, local: bool)

  datatype ResolveNode = ResolveNode(id: string, dependencies: seq<string>)

  /** Every name in `id2name` is a crate with that id, and every id of a crate is known. */
  ghost predicate NamesIds(crates: map<Name, Crate>, id2name: map<string, Name>) {
    && (forall id :: id in id2name ==> id2name[id] in crates && crates[id2name[id]].id == id)
    && (forall x :: x in crates ==> crates[x].id in id2name)
  }

  /** The crates differ from `before` only in their dependencies. */
  ghost predicate SameCrates(before: map<Name, Crate>, after: map<Name, Crate>) {
    before.Keys == after.Keys && forall x :: x in before ==> after[x] == before[x].(deps := after[x].deps)
  }

  /** The dependency of `x` on `y` is reported by one of the nodes. */
  ghost predicate Reported(id2name: map<string, Name>, nodes: seq<ResolveNode>, x: Name, y: Name) {
    exists i, id :: ReportedAt(id2name, nodes, x, y, i, id)
  }

  ghost predicate ReportedAt(id2name: map<string, Name>, nodes: seq<ResolveNode>, x: Name, y: Name, i: int, id: string)
  {
    && 0 <= i < |nodes| && nodes[i].id in id2name && id2name[nodes[i].id] == x
    && id in nodes[i].dependencies && id in id2name && id2name[id] == y
  }

  /** The names behind the known ids among `ids`. */
  ghost function KnownNames(id2name: map<string, Name>, ids: seq<string>): set<Name> {
    set id | id in ids && id in id2name :: id2name[id]
  }

  /** `packages[i]` is the last workspace package with the name `x`. */
  ghost predicate LastNamed(packages: seq<Package>, x: Name, i: int) {
    && 0 <= i < |packages| && packages[i].name == x && packages[i].source == None
    && forall j :: i < j < |packages| ==> packages[j].name != x || packages[j].source != None
  }

  /** Some workspace package has the name `x`. */
  ghost predicate Named(packages: seq<Package>, x: Name) {
    exists i :: 0 <= i < |packages| && packages[i].name == x && packages[i].source == None
  }

  /** The crates are the workspace packages; of several with the same name it is the last one. */
  ghost predicate FromPackages(packages: seq<Package>, crates: map<Name, Crate>) {
    && (forall x :: x in crates <==> Named(packages, x))
    && (forall x, i :: x in crates && LastNamed(packages, x, i) ==>
          crates[x].id == packages[i].id && crates[x].local == packages[i].local)
  }

  method CollectCrates(packages: seq<Package>) returns (crates: map<Name, Crate>)
    ensures FromPackages(packages, crates) && forall x :: x in crates ==> crates[x].deps == {}
  {
    crates := map[];
    for k := 0 to |packages|
      invariant FromPackages(packages[..k], crates) && forall x :: x in crates ==> crates[x].deps == {}
    {
      var p := packages[k];
      ghost var before := crates;
      if p.source == None {
        crates := crates[p.name := Crate(p.id, p.local, {})];
      }
      OneMorePackage(packages[..k], p, before, crates);
      assert packages[..k + 1] == packages[..k] + [p];
    }
    assert packages[..|packages|] == packages;
  }

  lemma OneMorePackage(packages: seq<Package>, p: Package, before: map<Name, Crate>, crates: map<Name, Crate>)
    requires FromPackages(packages, before)
    requires crates == if p.source == None then before[p.name := Crate(p.id, p.local, {})] else before
    ensures FromPackages(packages + [p], crates)
  {
    var more := packages + [p];
    forall x ensures x in crates <==> Named(more, x) {
      if x in before {
        var i :| 0 <= i < |packages| && packages[i].name == x && packages[i].source == None;
        assert more[i] == packages[i];
      }
      if p.source == None && x == p.name { assert more[|packages|] == p; }
      if Named(more, x) && !(p.source == None && x == p.name) {
        var i :| 0 <= i < |more| && more[i].name == x && more[i].source == None;
        assert packages[i].name == x;
      }
    }
    forall x, i | x in crates && LastNamed(more, x, i)
      ensures crates[x].id == more[i].id && crates[x].local == more[i].local
    {
      if i < |packages| {
        assert more[|packages|] == p;
        forall j | i < j < |packages| ensures packages[j].name != x || packages[j].source != None {
          assert more[j] == packages[j];
        }
        assert LastNamed(packages, x, i);
      }
    }
  }

  /** Fills `id2name`, going through the crates in any order. */
  method NameIds(crates: map<Name, Crate>) returns (id2name: map<string, Name>)
    ensures NamesIds(crates, id2name)
  {
    id2name := map[];
    var rest := crates.Keys;
    while rest != {}
      invariant rest <= crates.Keys
      invariant forall id :: id in id2name ==> id2name[id] in crates && crates[id2name[id]].id == id
      invariant forall x :: x in crates && x !in rest ==> crates[x].id in id2name
      decreases rest
    {
      var name :| name in rest;
      rest := rest - {name};
      id2name := id2name[crates[name].id := name];
    }
  }

  /** Adds the dependencies that one node reports to those of its crate. */
  method AddDependencies(known: set<Name>, id2name: map<string, Name>, ids: seq<string>) returns (deps: set<Name>)
    ensures deps == known + KnownNames(id2name, ids)
  {
    deps := known;
    for k := 0 to |ids|
      invariant deps == known + KnownNames(id2name, ids[..k])
    {
      assert ids[..k + 1] == ids[..k] + [ids[k]];
      if ids[k] in id2name {
        assert KnownNames(id2name, ids[..k + 1]) == KnownNames(id2name, ids[..k]) + {id2name[ids[k]]};
        deps := deps + {id2name[ids[k]]};
      } else {
        assert KnownNames(id2name, ids[..k + 1]) == KnownNames(id2name, ids[..k]);
      }
    }
    assert ids[..|ids|] == ids;
  }

  /** The loop over the resolved nodes. */
  method AddNodes(crates: map<Name, Crate>, id2name: map<string, Name>, nodes: seq<ResolveNode>)
    returns (after: map<Name, Crate>)
    requires NamesIds(crates, id2name) && forall x :: x in crates ==> crates[x].deps == {}
    ensures SameCrates(crates, after)
    ensures forall x, y :: x in after ==> (y in after[x].deps <==> Reported(id2name, nodes, x, y))
  {
    after := crates;
    for k := 0 to |nodes|
      invariant SameCrates(crates, after)
      invariant forall x, y :: x in after ==> (y in after[x].deps <==> Reported(id2name, nodes[..k], x, y))
    {
      var node := nodes[k];
      ReportedNext(id2name, nodes[..k], node);
      assert nodes[..k + 1] == nodes[..k] + [node];
      if node.id in id2name {
        var name := id2name[node.id];
        var deps := AddDependencies(after[name].deps, id2name, node.dependencies);
        after := after[name := after[name].(deps := deps)];
      }
    }
    assert nodes[..|nodes|] == nodes;
  }

  /** What one more node reports. */
  lemma ReportedNext(id2name: map<string, Name>, nodes: seq<ResolveNode>, node: ResolveNode)
    ensures forall x, y :: Reported(id2name, nodes + [node], x, y) <==>
              Reported(id2name, nodes, x, y)
              || (node.id in id2name && id2name[node.id] == x && y in KnownNames(id2name, node.dependencies))
  {
    var more := nodes + [node];
    forall x, y
      ensures Reported(id2name, more, x, y) <==>
              Reported(id2name, nodes, x, y)
              || (node.id in id2name && id2name[node.id] == x && y in KnownNames(id2name, node.dependencies))
    {
      if Reported(id2name, more, x, y) {
        var i, id :| ReportedAt(id2name, more, x, y, i, id);
        if i < |nodes| { assert ReportedAt(id2name, nodes, x, y, i, id); }
      }
      if Reported(id2name, nodes, x, y) {
        var i, id :| ReportedAt(id2name, nodes, x, y, i, id);
        assert ReportedAt(id2name, more, x, y, i, id);
      }
      if node.id in id2name && id2name[node.id] == x && y in KnownNames(id2name, node.dependencies) {
        var id :| id in node.dependencies && id in id2name && id2name[id] == y;
        assert ReportedAt(id2name, more, x, y, |nodes|, id);
      }
    }
  }

  ghost predicate DistinctIds(crates: map<Name, Crate>) {
    forall x, y :: x in crates && y in crates && crates[x].id == crates[y].id ==> x == y
  }

  /** One crate depends on another if a node with the id of the first lists the id of the second. */
  ghost predicate Lists(crates: map<Name, Crate>, nodes: seq<ResolveNode>, x: Name, y: Name)
    requires x in crates && y in crates
  {
    exists i :: 0 <= i < |nodes| && nodes[i].id == crates[x].id && crates[y].id in nodes[i].dependencies
  }

  /** `metadata::build`: the crates are the workspace packages; every dependency is a key of the map,
      so it can be looked up; and if the ids are distinct, the dependencies are exactly the ones that
      Cargo reports between crates of the map. */
  method Build(packages: seq<Package>, nodes: seq<ResolveNode>) returns (crates: map<Name, Crate>)
    ensures FromPackages(packages, crates) && DepsClosed(crates)
    ensures DistinctIds(crates) ==>
              forall x, y :: x in crates && y in crates ==> (y in crates[x].deps <==> Lists(crates, nodes, x, y))
  {
    var found := CollectCrates(packages);
    var id2name := NameIds(found);
    crates := AddNodes(found, id2name, nodes);
    forall x, y | x in crates && y in crates[x].deps ensures y in crates {
      assert Reported(id2name, nodes, x, y);
    }
    if DistinctIds(crates) {
      forall x, y | x in crates && y in crates ensures y in crates[x].deps <==> Lists(crates, nodes, x, y) {
        ReportedIsListed(found, id2name, nodes, x, y);
      }
    }
  }

  lemma ReportedIsListed(crates: map<Name, Crate>, id2name: map<string, Name>, nodes: seq<ResolveNode>,
                         x: Name, y: Name)
    requires NamesIds(crates, id2name) && DistinctIds(crates) && x in crates && y in crates
    ensures Reported(id2name, nodes, x, y) <==> Lists(crates, nodes, x, y)
  {
    if Lists(crates, nodes, x, y) {
      var i :| 0 <= i < |nodes| && nodes[i].id == crates[x].id && crates[y].id in nodes[i].dependencies;
      assert ReportedAt(id2name, nodes, x, y, i, crates[y].id);
    }
  }

  // ---- in_tree_crates ----

  const BUILD_HELPER := "build_helper"

  /** A dependency that the walk follows. */
  ghost predicate Edge(crates: map<Name, Crate>, x: Name, y: Name) {
    x in crates && y in crates[x].deps && y != BUILD_HELPER
  }

  /** A chain of dependencies that does not enter `build_helper`. */
  ghost predicate DependencyPath(crates: map<Name, Crate>, p: seq<Name>) {
    forall i :: 0 <= i < |p| - 1 ==> Edge(crates, p[i], p[i + 1])
  }

  ghost predicate ReachesBy(crates: map<Name, Crate>, root: Name, c: Name, p: seq<Name>) {
    DependencyPath(crates, p) && |p| >= 2 && p[0] == root && p[|p| - 1] == c
  }

  /** `c` is a dependency of `root`, directly or through others. */
  ghost predicate Reaches(crates: map<Name, Crate>, root: Name, c: Name) {
    exists p :: ReachesBy(crates, root, c, p)
  }

  lemma ReachesNext(crates: map<Name, Crate>, root: Name, x: Name, d: Name)
    requires Edge(crates, x, d) && (x == root || Reaches(crates, root, x))
    ensures Reaches(crates, root, d)
  {
    if x == root {
      assert ReachesBy(crates, root, d, [root, d]);
    } else {
      var p :| ReachesBy(crates, root, x, p);
      assert ReachesBy(crates, root, d, p + [d]);
    }
  }

  /** A set that holds the dependencies of `root` and of its own members holds all that is reached. */
  lemma {:induction false} ReachedAreIn(crates: map<Name, Crate>, pushed: set<Name>, root: Name, c: Name, p: seq<Name>)
    requires ReachesBy(crates, root, c, p)
    requires forall x, d :: (x == root || x in pushed) && Edge(crates, x, d) ==> d in pushed
    ensures c in pushed
    decreases |p|
  {
    var k := |p| - 2;
    assert Edge(crates, p[k], p[k + 1]);
    if k > 0 {
      var q := p[..k + 1];
      assert forall i :: 0 <= i < |q| ==> q[i] == p[i];
      assert ReachesBy(crates, root, p[k], q);
      ReachedAreIn(crates, pushed, root, p[k], q);
    }
  }

  /** How often `c` occurs in `list`. */
  ghost function Count(list: seq<Name>, c: Name): nat { multiset(list)[c] }

  ghost function One(b: bool): nat { if b then 1 else 0 }

  lemma CountAppend(list: seq<Name>, x: Name, c: Name)
    ensures Count(list + [x], c) == Count(list, c) + One(c == x)
  {
  }

  /** The walk follows a dependency to `c` the first time that it sees it. */
  ghost predicate Follows(visited: set<Name>, deps: set<Name>, c: Name) {
    c in deps && c !in visited && c != BUILD_HELPER
  }

  /** The inner loop: pushes the dependencies that are seen for the first time, in any order. */
  method PushDeps(list: seq<Name>, visited: set<Name>, deps: set<Name>) returns (list': seq<Name>, visited': set<Name>)
    ensures visited' == visited + deps
    ensures forall c :: Count(list', c) == Count(list, c) + One(Follows(visited, deps, c))
    ensures deps <= visited ==> list' == list
  {
    list', visited' := list, visited;
    var rest := deps;
    while rest != {}
      invariant rest <= deps && visited' == visited + (deps - rest)
      invariant forall c :: Count(list', c) == Count(list, c) + One(Follows(visited, deps - rest, c))
      invariant deps <= visited ==> list' == list
      decreases rest
    {
      var dep :| dep in rest;
      rest := rest - {dep};
      ghost var before := list';
      if dep !in visited' && dep != BUILD_HELPER {
        list' := list' + [dep];
        forall c ensures Count(list', c) == Count(before, c) + One(c == dep) { CountAppend(before, dep, c); }
      }
      visited' := visited' + {dep};
    }
    assert deps - rest == deps;
  }

  /** What the walk knows between rounds: every crate pushed is reached, every dependency of a crate
      that was taken off the list has been visited, and nothing was taken off or is waiting twice,
      except that the root was put on the list without being marked as visited. */
  ghost predicate Walking(crates: map<Name, Crate>, root: Name, list: seq<Name>, visited: set<Name>, taken: seq<Name>) {
    && visited <= crates.Keys
    && (forall d :: d in visited && d != BUILD_HELPER ==> Reaches(crates, root, d))
    && (forall x, d :: x in taken && Edge(crates, x, d) ==> d in visited)
    && (forall c :: Count(taken, c) + Count(list, c) == One(c == root) + One(c in visited && c != BUILD_HELPER))
  }

  lemma Counted(list: seq<Name>, c: Name)
    ensures c in list <==> Count(list, c) > 0
  {
  }

  /** Whatever is on the list is the root or reached from it. */
  lemma ListedIsReached(crates: map<Name, Crate>, root: Name, list: seq<Name>, visited: set<Name>, taken: seq<Name>,
                        x: Name)
    requires Walking(crates, root, list, visited, taken) && x in list && root in crates
    ensures x in crates && (x == root || Reaches(crates, root, x))
  {
    Counted(list, x);
    assert Count(taken, x) + Count(list, x) == One(x == root) + One(x in visited && x != BUILD_HELPER);
  }

  lemma WalkOn(crates: map<Name, Crate>, root: Name, list: seq<Name>, visited: set<Name>, taken: seq<Name>,
               x: Name, list': seq<Name>)
    requires DepsClosed(crates) && root in crates && x in crates
    requires Walking(crates, root, list + [x], visited, taken)
    requires forall c :: Count(list', c) == Count(list, c) + One(Follows(visited, crates[x].deps, c))
    ensures Walking(crates, root, list', visited + crates[x].deps, taken + [x])
  {
    var deps := crates[x].deps;
    ListedIsReached(crates, root, list + [x], visited, taken, x);
    forall d | d in visited + deps && d != BUILD_HELPER ensures Reaches(crates, root, d) {
      if d in deps {
        ReachesNext(crates, root, x, d);
      }
    }
    forall c ensures Count(taken + [x], c) + Count(list', c) ==
                     One(c == root) + One(c in visited + deps && c != BUILD_HELPER)
    {
      CountAppend(taken, x, c);
      CountAppend(list, x, c);
      assert Count(taken, c) + Count(list + [x], c) == One(c == root) + One(c in visited && c != BUILD_HELPER);
    }
  }

  /** At the end, what was taken off the list is the root and all that is reached. */
  lemma WalkEnds(crates: map<Name, Crate>, root: Name, visited: set<Name>, taken: seq<Name>, c: Name)
    requires Walking(crates, root, [], visited, taken)
    ensures Count(taken, c) == One(c == root) + One(Reaches(crates, root, c))
  {
    var pushed := visited - {BUILD_HELPER};
    assert Count(taken, c) + Count([], c) == One(c == root) + One(c in visited && c != BUILD_HELPER);
    if Reaches(crates, root, c) {
      var p :| ReachesBy(crates, root, c, p);
      forall x, d | (x == root || x in pushed) && Edge(crates, x, d) ensures d in pushed {
        assert Count(taken, x) + Count([], x) == One(x == root) + One(x in visited && x != BUILD_HELPER);
        Counted(taken, x);
      }
      ReachedAreIn(crates, pushed, root, c, p);
    }
  }

  /** How often a crate is listed: once if it is the root, and once if the root depends on it without
      going through `build_helper`; so twice only if it is the root and lies on a cycle. */
  ghost function Listed(crates: map<Name, Crate>, root: Name, c: Name): nat {
    if c in crates && crates[c].local then One(c == root) + One(Reaches(crates, root, c)) else 0
  }

  /** Two crates that depend on each other: the root is listed twice. */
  lemma RootListedTwice()
    ensures exists crates: map<Name, Crate>, root: Name ::
              DepsClosed(crates) && root in crates && Listed(crates, root, root) == 2
  {
    var crates := map["a" := Crate("1", true, {"b"}), "b" := Crate("2", true, {"a"})];
    var p := ["a", "b", "a"];
    assert Edge(crates, "a", "b") && Edge(crates, "b", "a");
    assert ReachesBy(crates, "a", "a", p);
    assert Listed(crates, "a", "a") == 2;
  }

  /** `in_tree_crates`. It ends on every graph, whatever the order in which dependencies are visited,
      and the lookups in the map do not fail. */
  method InTreeCrates(crates: map<Name, Crate>, root: Name) returns (r: Option<seq<Name>>)
    requires DepsClosed(crates)
    ensures r == None <==> root !in crates
    ensures r.Some? ==> forall c :: Count(r.value, c) == Listed(crates, root, c)
  {
    if root !in crates {
      return None;
    }
    var ret: seq<Name> := [];
    var list: seq<Name> := [root];
    var visited: set<Name> := {};
    ghost var taken: seq<Name> := [];
    WalkStarts(crates, root);
    while list != []
      invariant Walking(crates, root, list, visited, taken)
      invariant forall c :: Count(ret, c) == if c in crates && crates[c].local then Count(taken, c) else 0
      decreases |crates.Keys - visited|, |list|
    {
      var krate := list[|list| - 1];
      var rest := list[..|list| - 1];
      SplitLast(list);
      ListedIsReached(crates, root, list, visited, taken, krate);
      ghost var before := ret;
      if crates[krate].local {
        ret := ret + [krate];
      }
      LocalCounts(crates, before, ret, taken, krate);
      var list', visited' := PushDeps(rest, visited, crates[krate].deps);
      WalkOn(crates, root, rest, visited, taken, krate, list');
      WalkShrinks(crates, visited, crates[krate].deps);
      taken := taken + [krate];
      list, visited := list', visited';
    }
    forall c ensures Count(ret, c) == Listed(crates, root, c) {
      WalkEnds(crates, root, visited, taken, c);
    }
    return Some(ret);
  }

  lemma SplitLast(list: seq<Name>)
    requires list != []
    ensures list == list[..|list| - 1] + [list[|list| - 1]]
  {
  }

  lemma WalkStarts(crates: map<Name, Crate>, root: Name)
    ensures Walking(crates, root, [root], {}, [])
  {
    forall c ensures Count([], c) + Count([root], c) == One(c == root) {
      CountAppend([], root, c);
      assert [] + [root] == [root];
    }
  }

  lemma LocalCounts(crates: map<Name, Crate>, before: seq<Name>, ret: seq<Name>, taken: seq<Name>, x: Name)
    requires x in crates && ret == if crates[x].local then before + [x] else before
    requires forall c :: Count(before, c) == if c in crates && crates[c].local then Count(taken, c) else 0
    ensures forall c :: Count(ret, c) == if c in crates && crates[c].local then Count(taken + [x], c) else 0
  {
    forall c ensures Count(ret, c) == if c in crates && crates[c].local then Count(taken + [x], c) else 0 {
      CountAppend(before, x, c);
      CountAppend(taken, x, c);
    }
  }

  lemma WalkShrinks(crates: map<Name, Crate>, visited: set<Name>, deps: set<Name>)
    requires visited <= crates.Keys && deps <= crates.Keys
    ensures |crates.Keys - (visited + deps)| <= |crates.Keys - visited|
    ensures !(deps <= visited) ==> |crates.Keys - (visited + deps)| < |crates.Keys - visited|
  {
    var a, b := crates.Keys - visited, crates.Keys - (visited + deps);
    assert a == b + (deps - visited);
  }

  // ---- From the metadata to the list ----

  /** No two names have packages with the same id. */
  ghost predicate DistinctPackages(packages: seq<Package>) {
    forall x, y, i, j ::
      (LastNamed(packages, x, i) && LastNamed(packages, y, j) && packages[i].id == packages[j].id) ==> x == y
  }

  /** The metadata reports that the package `x` depends on the package `y`. */
  ghost predicate DependsOn(packages: seq<Package>, nodes: seq<ResolveNode>, x: Name, y: Name) {
    exists i, j, k :: DependsAt(packages, nodes, x, y, i, j, k)
  }

  ghost predicate DependsAt(packages: seq<Package>, nodes: seq<ResolveNode>, x: Name, y: Name, i: int, j: int, k: int) {
    && LastNamed(packages, x, i) && LastNamed(packages, y, j)
    && 0 <= k < |nodes| && nodes[k].id == packages[i].id && packages[j].id in nodes[k].dependencies
  }

  /** A reported dependency on a crate other than `build_helper`. */
  ghost predicate ReportedEdge(packages: seq<Package>, nodes: seq<ResolveNode>, x: Name, y: Name) {
    DependsOn(packages, nodes, x, y) && y != "build_helper"
  }

  /** A chain of reported dependencies from `root` to `c`, never into the crate `build_helper`. */
  ghost predicate ReportedPath(packages: seq<Package>, nodes: seq<ResolveNode>, root: Name, c: Name, p: seq<Name>) {
    && |p| >= 2 && p[0] == root && p[|p| - 1] == c
    && forall i :: 0 <= i < |p| - 1 ==> ReportedEdge(packages, nodes, p[i], p[i + 1])
  }

  ghost predicate ReportedReach(packages: seq<Package>, nodes: seq<ResolveNode>, root: Name, c: Name) {
    exists p :: ReportedPath(packages, nodes, root, c, p)
  }

  /** The package of a name is local. */
  ghost predicate LocalPackage(packages: seq<Package>, x: Name) {
    exists i :: LastNamed(packages, x, i) && packages[i].local
  }

  lemma {:induction false} LastExists(packages: seq<Package>, x: Name) returns (i: int)
    requires Named(packages, x)
    ensures LastNamed(packages, x, i)
  {
    var n := |packages| - 1;
    if packages[n].name == x && packages[n].source == None {
      i := n;
    } else {
      var k :| 0 <= k < |packages| && packages[k].name == x && packages[k].source == None;
      assert packages[..n][k] == packages[k];
      i := LastExists(packages[..n], x);
      forall j | i < j < |packages| ensures packages[j].name != x || packages[j].source != None {
        if j < n { assert packages[..n][j] == packages[j]; }
      }
    }
  }

  lemma LastUnique(packages: seq<Package>, x: Name, i: int, j: int)
    requires LastNamed(packages, x, i) && LastNamed(packages, x, j)
    ensures i == j
  {
  }

  lemma PackagesDistinct(packages: seq<Package>, crates: map<Name, Crate>)
    requires FromPackages(packages, crates) && DistinctPackages(packages)
    ensures DistinctIds(crates)
  {
    forall x, y | x in crates && y in crates && crates[x].id == crates[y].id ensures x == y {
      var i := LastExists(packages, x);
      var j := LastExists(packages, y);
      assert packages[i].id == packages[j].id;
    }
  }

  /** The edges of the map are those of the metadata. */
  lemma EdgeIsReported(packages: seq<Package>, nodes: seq<ResolveNode>, crates: map<Name, Crate>, x: Name, y: Name)
    requires FromPackages(packages, crates) && DepsClosed(crates)
    requires forall x, y :: x in crates && y in crates ==> (y in crates[x].deps <==> Lists(crates, nodes, x, y))
    ensures Edge(crates, x, y) <==> ReportedEdge(packages, nodes, x, y)
  {
    if Edge(crates, x, y) {
      var i := LastExists(packages, x);
      var j := LastExists(packages, y);
      assert Lists(crates, nodes, x, y);
      var k :| 0 <= k < |nodes| && nodes[k].id == crates[x].id && crates[y].id in nodes[k].dependencies;
      assert DependsAt(packages, nodes, x, y, i, j, k);
    }
    if DependsOn(packages, nodes, x, y) {
      var i, j, k :| DependsAt(packages, nodes, x, y, i, j, k);
      assert Named(packages, x) && Named(packages, y);
      assert nodes[k].id == crates[x].id && crates[y].id in nodes[k].dependencies;
    }
  }

  lemma ReachIsReported(packages: seq<Package>, nodes: seq<ResolveNode>, crates: map<Name, Crate>, root: Name, c: Name)
    requires FromPackages(packages, crates) && DepsClosed(crates)
    requires forall x, y :: x in crates && y in crates ==> (y in crates[x].deps <==> Lists(crates, nodes, x, y))
    ensures Reaches(crates, root, c) <==> ReportedReach(packages, nodes, root, c)
  {
    forall p ensures ReachesBy(crates, root, c, p) <==> ReportedPath(packages, nodes, root, c, p) {
      forall i | 0 <= i < |p| - 1
        ensures Edge(crates, p[i], p[i + 1]) <==> ReportedEdge(packages, nodes, p[i], p[i + 1])
      {
        EdgeIsReported(packages, nodes, crates, p[i], p[i + 1]);
      }
    }
  }

  lemma LocalIsReported(packages: seq<Package>, crates: map<Name, Crate>, x: Name)
    requires FromPackages(packages, crates)
    ensures x in crates && crates[x].local <==> LocalPackage(packages, x)
  {
    if x in crates {
      var i := LastExists(packages, x);
      if LocalPackage(packages, x) {
        var j :| LastNamed(packages, x, j) && packages[j].local;
        LastUnique(packages, x, i, j);
      }
    }
  }

  /** From the metadata to the list: the lookup fails only for a root that is no workspace package; and
      with distinct ids, the list holds just the local packages that are the root or that the reported
      dependencies lead to, each once, and the root once more if they lead back to it. */
  method ListCrates(packages: seq<Package>, nodes: seq<ResolveNode>, root: Name) returns (r: Option<seq<Name>>)
    ensures r == None <==> !Named(packages, root)
    ensures r.Some? && DistinctPackages(packages) ==>
              forall c :: Count(r.value, c) ==
                          if LocalPackage(packages, c)
                          then One(c == root) + One(ReportedReach(packages, nodes, root, c)) else 0
  {
    var crates := Build(packages, nodes);
    r := InTreeCrates(crates, root);
    if r.Some? && DistinctPackages(packages) {
      PackagesDistinct(packages, crates);
      forall c ensures Count(r.value, c) ==
                       if LocalPackage(packages, c)
                       then One(c == root) + One(ReportedReach(packages, nodes, root, c)) else 0
      {
        LocalIsReported(packages, crates, c);
        ReachIsReported(packages, nodes, crates, root, c);
        assert Count(r.value, c) == Listed(crates, root, c);
      }
    }
  }
}
