/** The dependency worklist over cargo metadata, and what its result is closed under. */
module DependencyClosure {
  import opened Wrappers
  import opened Sorting

  type Id = string

  datatype Kind = NormalKind | BuildKind | DevKind
  datatype Dependency = Dependency(target: Id, kinds: seq<Kind>)
  datatype Package = Package(id: Id, name: string, version: string, source: string)

  datatype Metadata = Metadata(packages: seq<Package>, nodes: map<Id, seq<Dependency>>)

  datatype ClosureError = NotOneRoot | MissingNode(id: Id) | MissingPackage(id: Id)

  const ROOT_PACKAGE := "trajecta-cli"

  // ------------------------------------------------------------------
  // Specification
  // ------------------------------------------------------------------

  /** The dependency has kinds, and each is dev: no part of the product needs it. */
  predicate DevOnly(d: Dependency) {
    d.kinds != [] && forall k :: k in d.kinds ==> k == DevKind
  }

  /** The dependency has no kinds, or one other than dev. */
  ghost predicate Runtime(d: Dependency) {
    d.kinds == [] || exists k :: k in d.kinds && k != DevKind
  }

  ghost predicate PointsTo(nodes: map<Id, seq<Dependency>>, from: Id, to: Id) {
    from in nodes && exists d :: d in nodes[from] && Runtime(d) && d.target == to
  }

  /** s contains the root and every runtime dependency of its members. */
  ghost predicate ClosedFrom(nodes: map<Id, seq<Dependency>>, root: Id, s: set<Id>) {
    root in s && forall x, y :: x in s && PointsTo(nodes, x, y) ==> y in s
  }

  /** In every closed set, so reached by any traversal. */
  ghost predicate Required(nodes: map<Id, seq<Dependency>>, root: Id, x: Id) {
    forall s :: ClosedFrom(nodes, root, s) ==> x in s
  }

  ghost predicate RequiredAll(nodes: map<Id, seq<Dependency>>, root: Id, s: set<Id>) {
    forall x :: x in s ==> Required(nodes, root, x)
  }

  /** An edge list: the runtime targets of one package, sorted, each once. */
  ghost predicate EdgesExact(nodes: map<Id, seq<Dependency>>, id: Id, edges: seq<Id>) {
    StrictlySorted(edges) && forall y :: y in edges <==> PointsTo(nodes, id, y)
  }

  /** The sort key of the selected packages. */
  predicate PackageLe(a: Package, b: Package) {
    if a.name != b.name then StringLe(a.name, b.name)
    else if a.version != b.version then StringLe(a.version, b.version)
    else StringLe(a.source, b.source)
  }

  /** The packages by id; the last package with an id stays. */
  function PackageTable(packages: seq<Package>): map<Id, Package> {
    if packages == [] then map[]
    else PackageTable(packages[..|packages| - 1])[packages[|packages| - 1].id := packages[|packages| - 1]]
  }

  function RootsFrom(packages: seq<Package>): seq<Id> {
    if packages == [] then []
    else (if packages[0].name == ROOT_PACKAGE then [packages[0].id] else []) + RootsFrom(packages[1..])
  }

  /** The package has the product's name. */
  predicate IsProduct(k: Package) {
    k.name == "trajecta-cli"
  }

  lemma {:induction false} NoRoots(packages: seq<Package>)
    ensures RootsFrom(packages) == [] <==> forall k :: k in packages ==> !IsProduct(k)
  {
    if packages != [] {
      NoRoots(packages[1..]);
      assert packages == [packages[0]] + packages[1..];
      assert packages[0] in packages && forall k :: k in packages ==> k == packages[0] || k in packages[1..];
    }
  }

  /** One package, between others, has the product's name. */
  ghost predicate OnlyProduct(packages: seq<Package>, before: seq<Package>, k: Package, after: seq<Package>) {
    && packages == before + [k] + after && IsProduct(k)
    && (forall x :: x in before ==> !IsProduct(x)) && forall x :: x in after ==> !IsProduct(x)
  }

  /** If one package alone has the product's name, it is the one root. */
  lemma {:induction false} OnlyProductIsRoot(packages: seq<Package>, before: seq<Package>, k: Package,
                                             after: seq<Package>)
    requires OnlyProduct(packages, before, k, after)
    ensures RootsFrom(packages) == [k.id]
    decreases |before|
  {
    if before == [] {
      assert packages[0] == k && packages[1..] == after;
      NoRoots(after);
    } else {
      assert packages[0] == before[0] && packages[1..] == before[1..] + [k] + after && before[0] in before;
      OnlyProductIsRoot(packages[1..], before[1..], k, after);
    }
  }

  /** One root comes from one package alone that has the product's name. */
  lemma {:induction false} RootIsOnlyProduct(packages: seq<Package>)
    returns (before: seq<Package>, k: Package, after: seq<Package>)
    requires |RootsFrom(packages)| == 1
    ensures OnlyProduct(packages, before, k, after)
  {
    assert packages == [packages[0]] + packages[1..];
    if IsProduct(packages[0]) {
      before, k, after := [], packages[0], packages[1..];
      assert RootsFrom(after) == [];
      NoRoots(after);
    } else {
      before, k, after := RootIsOnlyProduct(packages[1..]);
      before := [packages[0]] + before;
    }
  }

  /** Of several packages with one id the last one counts. */
  lemma {:induction false} LastPackageStays(packages: seq<Package>, i: nat)
    requires i < |packages| && forall j :: i < j < |packages| ==> packages[j].id != packages[i].id
    ensures packages[i].id in PackageTable(packages) && PackageTable(packages)[packages[i].id] == packages[i]
  {
    if i < |packages| - 1 {
      LastPackageStays(packages[..|packages| - 1], i);
    }
  }

  /** Packages are ordered by name, then by version, then by source. */
  lemma PackageOrderExact(a: Package, b: Package)
    ensures a.name != b.name ==> (PackageLe(a, b) <==> StringLe(a.name, b.name))
    ensures a.name == b.name && a.version != b.version ==> (PackageLe(a, b) <==> StringLe(a.version, b.version))
    ensures a.name == b.name && a.version == b.version ==> (PackageLe(a, b) <==> StringLe(a.source, b.source))
  {
  }

  // ------------------------------------------------------------------
  // dependency_closure
  // ------------------------------------------------------------------

  /** The inner loop over one node's dependencies. */
  method RuntimeTargets(deps: seq<Dependency>) returns (targets: set<Id>, listed: seq<Id>)
    ensures forall y :: y in targets <==> exists d :: d in deps && !DevOnly(d) && d.target == y
    ensures forall y :: y in listed <==> y in targets
  {
    targets, listed := {}, [];
    for i := 0 to |deps|
      invariant forall y :: y in targets <==> exists j :: 0 <= j < i && !DevOnly(deps[j]) && deps[j].target == y
      invariant forall y :: y in listed <==> y in targets
    {
      if !DevOnly(deps[i]) {
        targets := targets + {deps[i].target};
        listed := listed + [deps[i].target];
      }
    }
  }

  /**
   The worklist. It ends; on success `included` is the least set containing the root and closed
   under runtime dependencies, each with its exact sorted edge list; it fails exactly when the
   traversal cannot avoid an id that has no node.
   */
  method Closure(nodes: map<Id, seq<Dependency>>, root: Id)
    returns (r: Result<set<Id>, ClosureError>, edges: map<Id, seq<Id>>)
    ensures r.Ok? ==> ClosedFrom(nodes, root, r.value) && RequiredAll(nodes, root, r.value)
    ensures r.Ok? ==> r.value <= nodes.Keys && edges.Keys == r.value
    ensures r.Ok? ==> forall p :: p in r.value ==> EdgesExact(nodes, p, edges[p])
    ensures r.Err? ==> r.error.MissingNode? && r.error.id !in nodes && Required(nodes, root, r.error.id)
  {
    var included: set<Id> := {};
    var pending := [root];
    edges := map[];
    while pending != []
      invariant included <= nodes.Keys && edges.Keys == included
      invariant root in included || root in pending
      invariant RequiredAll(nodes, root, included) && forall x :: x in pending ==> Required(nodes, root, x)
      invariant forall x, y :: x in included && PointsTo(nodes, x, y) ==> y in included || y in pending
      invariant forall p :: p in included ==> EdgesExact(nodes, p, edges[p])
      decreases nodes.Keys - included, |pending|
    {
      var packageId := pending[|pending| - 1];
      assert forall x :: x in pending <==> x in pending[..|pending| - 1] || x == packageId by {
        assert pending == pending[..|pending| - 1] + [packageId];
      }
      pending := pending[..|pending| - 1];
      if packageId !in included {
        if packageId !in nodes {
          return Err(MissingNode(packageId)), edges;
        }
        included := included + {packageId};
        var targets, listed := RuntimeTargets(nodes[packageId]);
        TargetsRequired(nodes, root, packageId, targets);
        pending := pending + listed;
        var sorted := SortSet(targets);
        edges := edges[packageId := sorted];
      }
    }
    r := Ok(included);
  }

  /** What a required package points to is required. */
  lemma TargetsRequired(nodes: map<Id, seq<Dependency>>, root: Id, id: Id, targets: set<Id>)
    requires Required(nodes, root, id) && forall y :: y in targets ==> PointsTo(nodes, id, y)
    ensures RequiredAll(nodes, root, targets)
  {
    forall y, s | y in targets && ClosedFrom(nodes, root, s) ensures y in s {
      assert id in s;
    }
  }

  /** The least closed set is unique. */
  lemma ClosureUnique(nodes: map<Id, seq<Dependency>>, root: Id, a: set<Id>, b: set<Id>)
    requires ClosedFrom(nodes, root, a) && RequiredAll(nodes, root, a)
    requires ClosedFrom(nodes, root, b) && RequiredAll(nodes, root, b)
    ensures a == b
  {
    assert forall x :: x in a ==> Required(nodes, root, x) && x in b;
    assert forall x :: x in b ==> Required(nodes, root, x) && x in a;
  }

  /** A required id without a node: no closed set lies inside the node table, so the failure was unavoidable. */
  lemma MissingNodeExact(nodes: map<Id, seq<Dependency>>, root: Id, id: Id)
    requires id !in nodes && Required(nodes, root, id)
    ensures !exists s :: ClosedFrom(nodes, root, s) && s <= nodes.Keys
  {
    forall s | ClosedFrom(nodes, root, s) ensures !(s <= nodes.Keys) {
      assert id in s;
    }
  }

  lemma PackageOrder()
    ensures TotalPreorder(PackageLe)
  {
    StringOrder();
    forall x, y | StringLe(x, y) && StringLe(y, x) ensures x == y { StringLeAntisymmetric(x, y); }
    hide StringLe;
  }

  /** The table holds each id of the list once, with a package of the list. */
  lemma {:induction false} TableHolds(packages: seq<Package>)
    ensures forall id :: id in PackageTable(packages) <==> exists k :: k in packages && k.id == id
    ensures forall id :: id in PackageTable(packages) ==>
              PackageTable(packages)[id] in packages && PackageTable(packages)[id].id == id
  {
    if packages != [] {
      TableHolds(packages[..|packages| - 1]);
      assert packages == packages[..|packages| - 1] + [packages[|packages| - 1]];
    }
  }

  /** selected lists the package of every id of a set once, sorted. */
  ghost predicate Selects(selected: seq<Package>, table: map<Id, Package>, ids: set<Id>) {
    && Sorted(selected, PackageLe)
    && (forall k :: k in selected ==> k.id in ids && k.id in table && table[k.id] == k)
    && forall id :: id in ids ==> exists k :: k in selected && k.id == id && multiset(selected)[k] == 1
  }

  method SelectPackages(table: map<Id, Package>, ids: set<Id>) returns (selected: seq<Package>)
    requires ids <= table.Keys && forall id :: id in table ==> table[id].id == id
    ensures Selects(selected, table, ids)
  {
    var listed := SortSet(ids);
    var found := seq(|listed|, i requires 0 <= i < |listed| => assert listed[i] in listed; table[listed[i]]);
    selected := Sort(found, PackageLe);
    FoundOnce(listed, found);
    assert Finds(found, listed, table);
    hide *;
    SortedSelection(listed, found, table, ids);
  }

  lemma FoundOnce(listed: seq<Id>, found: seq<Package>)
    requires StrictlySorted(listed) && |found| == |listed|
    requires forall i :: 0 <= i < |listed| ==> found[i].id == listed[i]
    ensures forall i :: 0 <= i < |found| ==> multiset(found)[found[i]] == 1
  {
    assert forall a, b :: 0 <= a < b < |listed| ==> listed[a] != listed[b];
    hide *;
    forall i | 0 <= i < |found| ensures multiset(found)[found[i]] == 1 { OnceInDistinct(found, i); }
  }

  /** found lists the packages of the listed ids, position by position. */
  ghost predicate Finds(found: seq<Package>, listed: seq<Id>, table: map<Id, Package>) {
    && |found| == |listed|
    && forall i :: 0 <= i < |found| ==>
         listed[i] in table && found[i] == table[listed[i]] && found[i].id == listed[i]
         && multiset(found)[found[i]] == 1
  }

  lemma FoundListed(found: seq<Package>, listed: seq<Id>, table: map<Id, Package>, k: Package)
    requires Finds(found, listed, table) && k in found
    ensures k.id in listed && k.id in table && table[k.id] == k
  {
    var i :| 0 <= i < |found| && found[i] == k;
    assert listed[i] in listed;
  }

  lemma ListedFound(found: seq<Package>, listed: seq<Id>, table: map<Id, Package>, id: Id) returns (k: Package)
    requires Finds(found, listed, table) && id in listed
    ensures k in found && k.id == id && multiset(found)[k] == 1
  {
    var i :| 0 <= i < |listed| && listed[i] == id;
    k := found[i];
  }

  lemma SortedSelection(listed: seq<Id>, found: seq<Package>, table: map<Id, Package>, ids: set<Id>)
    requires Finds(found, listed, table) && forall id :: id in listed <==> id in ids
    ensures Selects(Sort(found, PackageLe), table, ids)
  {
    PackageOrder();
    SortSorts(found, PackageLe);
    SortMembers(found, PackageLe);
    hide PackageLe, StringLe, Sorted, Sort, TotalPreorder, Finds;
    var selected := Sort(found, PackageLe);
    forall k | k in selected ensures k.id in ids && k.id in table && table[k.id] == k {
      FoundListed(found, listed, table, k);
    }
    forall id | id in ids ensures exists k :: k in selected && k.id == id && multiset(selected)[k] == 1 {
      var k := ListedFound(found, listed, table, id);
    }
  }

  lemma OnceInDistinct<T>(s: seq<T>, i: nat)
    requires i < |s| && forall a, b :: 0 <= a < b < |s| ==> s[a] != s[b]
    ensures multiset(s)[s[i]] == 1
  {
    assert s == s[..i] + [s[i]] + s[i + 1..];
    assert s[i] !in s[..i] && s[i] !in s[i + 1..];
  }

  /** The whole function: one root, the worklist, the package lookup and the sorted selection. */
  method DependencyClosureOf(m: Metadata)
    returns (r: Result<set<Id>, ClosureError>, selected: seq<Package>, edges: map<Id, seq<Id>>)
    ensures |RootsFrom(m.packages)| != 1 ==> r == Err(NotOneRoot)
    ensures r.Ok? ==> |RootsFrom(m.packages)| == 1
                      && ClosedFrom(m.nodes, RootsFrom(m.packages)[0], r.value)
                      && RequiredAll(m.nodes, RootsFrom(m.packages)[0], r.value)
    ensures r.Ok? ==> edges.Keys == r.value && forall p :: p in r.value ==> EdgesExact(m.nodes, p, edges[p])
    ensures r.Ok? ==> Selects(selected, PackageTable(m.packages), r.value)
    ensures r.Err? && |RootsFrom(m.packages)| == 1 ==>
              match r.error
              case NotOneRoot => false
              case MissingNode(id) => id !in m.nodes && Required(m.nodes, RootsFrom(m.packages)[0], id)
              case MissingPackage(id) =>
                (forall k :: k in m.packages ==> k.id != id) && Required(m.nodes, RootsFrom(m.packages)[0], id)
  {
    var roots := RootsFrom(m.packages);
    selected, edges := [], map[];
    if |roots| != 1 {
      return Err(NotOneRoot), selected, edges;
    }
    r, edges := Closure(m.nodes, roots[0]);
    if r.Ok? {
      var table := PackageTable(m.packages);
      TableHolds(m.packages);
      var lost := r.value - table.Keys;
      if lost != {} {
        var id :| id in lost;
        r := Err(MissingPackage(id));
      } else {
        assert forall id :: id in r.value ==> id !in lost;
        selected := SelectPackages(table, r.value);
      }
    }
  }

  // ------------------------------------------------------------------
  // The dependency part of the bill of materials
  // ------------------------------------------------------------------

  /** The edges into included packages, in order. */
  function Filtered(edges: seq<Id>, included: set<Id>): seq<Id> {
    if edges == [] then []
    else (if edges[0] in included then [edges[0]] else []) + Filtered(edges[1..], included)
  }

  lemma {:induction false} FilterKeeps(edges: seq<Id>, included: set<Id>)
    requires forall y :: y in edges ==> y in included
    ensures Filtered(edges, included) == edges
  {
    if edges != [] {
      FilterKeeps(edges[1..], included);
      assert edges == [edges[0]] + edges[1..];
    }
  }

  /** The bill's filter on included packages drops no edge of any listed package. */
  lemma FilterDropsNothing(nodes: map<Id, seq<Dependency>>, root: Id, included: set<Id>, edges: map<Id, seq<Id>>, p: Id)
    requires ClosedFrom(nodes, root, included) && edges.Keys == included && p in included
    requires forall q :: q in included ==> EdgesExact(nodes, q, edges[q])
    ensures Filtered(edges[p], included) == edges[p]
  {
    forall y | y in edges[p] ensures y in included {
      assert PointsTo(nodes, p, y);
    }
    FilterKeeps(edges[p], included);
  }
}
