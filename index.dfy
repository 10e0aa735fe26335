/**
 * The metadata index: lookup tables from package id to manifest and to
 * resolve node, the public surface of the root package, and the queries
 * that resolve a package's (or one of its targets') dependencies.
 */
module MetadataIndex {
  import opened Wrappers
  import opened Cargo
  import Maps

  /** A public target: a package together with the kind of target required of it. */
  type TargetKey = (PkgId, TargetReq)

  datatype Index = Index(
    pkgidToPkg: map<PkgId, Manifest>,
    pkgidToNode: map<PkgId, Node>,
    root: Manifest,
    publicPackages: set<PkgId>,
    publicTargets: map<TargetKey, Option<string>>)

  /** The invariant every constructed index satisfies. */
  ghost predicate WellFormed(idx: Index)
  {
    && idx.root.id in idx.pkgidToPkg
    && idx.pkgidToPkg[idx.root.id] == idx.root
    && (forall id :: id in idx.pkgidToPkg ==> idx.pkgidToPkg[id].id == id)
    && idx.publicPackages == set k | k in idx.publicTargets :: k.0
  }

  /** Why building the index aborts. */
  datatype IndexError =
    | MissingRoot          // the resolve section names no root
    | AmbiguousRoot        // the root id is not among the packages
    | MissingNode          // the root has no resolve node
    | UnresolvableEdge     // a root edge has no name, or points at an unknown package

  // ----- lookup tables -----

  /** The (key, element) pairs fed to the `collect` of a by-id table. */
  function KeyedPairs<T>(xs: seq<T>, key: T -> PkgId): (ps: seq<(PkgId, T)>)
    ensures |ps| == |xs| && forall i :: 0 <= i < |xs| ==> ps[i] == (key(xs[i]), xs[i])
  {
    seq(|xs|, i requires 0 <= i < |xs| => (key(xs[i]), xs[i]))
  }

  /**
   * A by-id table: every element under its own id; when two elements share
   * an id, the later one is kept.
   */
  function ById<T(==)>(xs: seq<T>, key: T -> PkgId): (m: map<PkgId, T>)
    ensures forall id :: id in m <==> exists i :: 0 <= i < |xs| && key(xs[i]) == id
    ensures forall id :: id in m ==> key(m[id]) == id && m[id] in xs
    ensures forall i :: 0 <= i < |xs| && (forall j :: i < j < |xs| ==> key(xs[j]) != key(xs[i])) ==>
              key(xs[i]) in m && m[key(xs[i])] == xs[i]
  {
    var ps := KeyedPairs(xs, key);
    var m := Maps.Collect(ps);
    forall id | id in m
      ensures key(m[id]) == id && m[id] in xs
    {
      Maps.CollectValueOrigin(ps, id);
    }
    forall i | 0 <= i < |xs| && (forall j :: i < j < |xs| ==> key(xs[j]) != key(xs[i]))
      ensures key(xs[i]) in m && m[key(xs[i])] == xs[i]
    {
      Maps.CollectLastWins(ps, i);
    }
    assert forall i :: 0 <= i < |xs| ==> ps[i].0 == key(xs[i]);
    m
  }

  function ManifestId(m: Manifest): PkgId
  {
    m.id
  }

  function NodeId(n: Node): PkgId
  {
    n.id
  }

  /** The manifest catalog. */
  function PkgById(ms: seq<Manifest>): map<PkgId, Manifest>
  {
    ById(ms, ManifestId)
  }

  /** The resolve graph. */
  function NodeById(ns: seq<Node>): map<PkgId, Node>
  {
    ById(ns, NodeId)
  }

  // ----- resolved dependencies -----

  /** One resolved dependency: the name it is known by, the kind record, and the package. */
  datatype Resolved = Resolved(rename: string, depKind: NodeDepKind, package: Manifest)

  /** The name of a kind record: the edge's own name if it has one, else the record's extern name. */
  function EffectiveName(e: NodeDep, dk: NodeDepKind): Option<string>
  {
    if e.name.Some? then e.name else dk.externName
  }

  /**
   * Every kind record of every edge has a name, and the package of every
   * edge with a kind record is catalogued: what `resolved_deps` unwraps.
   */
  predicate EdgesResolvable(catalog: map<PkgId, Manifest>, edges: seq<NodeDep>)
  {
    forall e, dk :: e in edges && dk in e.depKinds ==> EffectiveName(e, dk).Some? && e.pkg in catalog
  }

  /** The number of kind records over all edges. */
  function KindCount(edges: seq<NodeDep>): nat
  {
    if edges == [] then 0 else |edges[0].depKinds| + KindCount(edges[1..])
  }

  function ExpandEdge(catalog: map<PkgId, Manifest>, e: NodeDep): (rs: seq<Resolved>)
    requires EdgesResolvable(catalog, [e])
    ensures |rs| == |e.depKinds|
    ensures forall k :: 0 <= k < |rs| ==>
              rs[k] == Resolved(EffectiveName(e, e.depKinds[k]).value, e.depKinds[k], catalog[e.pkg])
  {
    seq(|e.depKinds|, k requires 0 <= k < |e.depKinds| =>
      assert e.depKinds[k] in e.depKinds;
      Resolved(EffectiveName(e, e.depKinds[k]).value, e.depKinds[k], catalog[e.pkg]))
  }

  /** The `flat_map` of `resolved_deps`: each edge expanded into one entry per kind record, in edge order. */
  function FlattenEdges(catalog: map<PkgId, Manifest>, edges: seq<NodeDep>): (rs: seq<Resolved>)
    requires EdgesResolvable(catalog, edges)
    ensures |rs| == KindCount(edges)
  {
    if edges == [] then []
    else
      assert edges[0] in edges;
      ExpandEdge(catalog, edges[0]) + FlattenEdges(catalog, edges[1..])
  }

  /** Flattening distributes over concatenation of edge lists, so entries keep edge order. */
  lemma {:induction false} FlattenAppend(catalog: map<PkgId, Manifest>, a: seq<NodeDep>, b: seq<NodeDep>)
    requires EdgesResolvable(catalog, a + b)
    ensures EdgesResolvable(catalog, a) && EdgesResolvable(catalog, b)
    ensures FlattenEdges(catalog, a + b) == FlattenEdges(catalog, a) + FlattenEdges(catalog, b)
  {
    ResolvableSplit(catalog, a, b);
    if a != [] {
      var ab := a + b;
      assert ab[0] == a[0];
      assert ab[1..] == a[1..] + b;
      FlattenAppend(catalog, a[1..], b);
    } else {
      assert a + b == b;
    }
  }

  /** Both halves of a resolvable edge list are resolvable. */
  lemma ResolvableSplit(catalog: map<PkgId, Manifest>, a: seq<NodeDep>, b: seq<NodeDep>)
    requires EdgesResolvable(catalog, a + b)
    ensures EdgesResolvable(catalog, a) && EdgesResolvable(catalog, b)
  {
    forall e, dk | e in a && dk in e.depKinds
      ensures EffectiveName(e, dk).Some? && e.pkg in catalog
    {
      assert e in a + b;
    }
    forall e, dk | e in b && dk in e.depKinds
      ensures EffectiveName(e, dk).Some? && e.pkg in catalog
    {
      assert e in a + b;
    }
  }

  /** An entry is produced exactly for a kind record of some edge, under that record's effective name. */
  lemma {:induction false} FlattenMember(catalog: map<PkgId, Manifest>, edges: seq<NodeDep>, r: Resolved)
    requires EdgesResolvable(catalog, edges)
    ensures r in FlattenEdges(catalog, edges) <==>
              exists e, dk :: e in edges && dk in e.depKinds
                && r == Resolved(EffectiveName(e, dk).value, dk, catalog[e.pkg])
  {
    if edges != [] {
      var e0 := edges[0];
      assert e0 in edges;
      FlattenMember(catalog, edges[1..], r);
      var head := ExpandEdge(catalog, e0);
      if r in head {
        var k :| 0 <= k < |head| && head[k] == r;
        assert e0.depKinds[k] in e0.depKinds;
      }
      if exists e, dk :: e in edges && dk in e.depKinds
                && r == Resolved(EffectiveName(e, dk).value, dk, catalog[e.pkg]) {
        var e, dk :| e in edges && dk in e.depKinds
                && r == Resolved(EffectiveName(e, dk).value, dk, catalog[e.pkg]);
        if e == e0 {
          var k :| 0 <= k < |e0.depKinds| && e0.depKinds[k] == dk;
          assert head[k] == r;
        } else {
          assert e in edges[1..];
        }
      }
    }
  }

  /**
   * `resolved_deps`: the package's resolve edges flattened into one entry
   * per kind record. The package must have a resolve node and its edges
   * must be resolvable; `resolved_deps` panics otherwise.
   */
  function ResolvedDeps(idx: Index, pkg: Manifest): (rs: seq<Resolved>)
    requires pkg.id in idx.pkgidToNode
    requires EdgesResolvable(idx.pkgidToPkg, idx.pkgidToNode[pkg.id].deps)
    ensures |rs| == KindCount(idx.pkgidToNode[pkg.id].deps)
    ensures forall r :: r in rs <==>
              exists e, dk :: e in idx.pkgidToNode[pkg.id].deps && dk in e.depKinds
                && r == Resolved(EffectiveName(e, dk).value, dk, idx.pkgidToPkg[e.pkg])
  {
    var edges := idx.pkgidToNode[pkg.id].deps;
    forall r {
      FlattenMember(idx.pkgidToPkg, edges, r);
    }
    FlattenEdges(idx.pkgidToPkg, edges)
  }

  // ----- renames and the public surface -----

  /** `rename.replace('-', "_")`. */
  function Normalize(s: string): (r: string)
    ensures |r| == |s| && '-' !in r
    ensures forall i :: 0 <= i < |s| && s[i] != '-' ==> r[i] == s[i]
    ensures forall i :: 0 <= i < |s| && s[i] == '-' ==> r[i] == '_'
  {
    seq(|s|, i requires 0 <= i < |s| => if s[i] == '-' then '_' else s[i])
  }

  /** The `filter_map` over the root's declarations: (normalised rename, rename) for each renamed one. */
  function RenamePairs(deps: seq<ManifestDep>): seq<(string, string)>
  {
    if deps == [] then []
    else
      var last := deps[|deps| - 1];
      RenamePairs(deps[..|deps| - 1]) + (if last.rename.Some? then [(Normalize(last.rename.value), last.rename.value)] else [])
  }

  /** The rename lookup: normalised rename to the rename as written, the last declaration winning. */
  function RenameIndex(deps: seq<ManifestDep>): map<string, string>
  {
    Maps.Collect(RenamePairs(deps))
  }

  /** A declaration whose rename no later declaration's rename normalises like. */
  ghost predicate LastRenamed(deps: seq<ManifestDep>, i: int)
  {
    && 0 <= i < |deps| && deps[i].rename.Some?
    && forall j :: i < j < |deps| && deps[j].rename.Some? ==>
         Normalize(deps[j].rename.value) != Normalize(deps[i].rename.value)
  }

  /**
   * The rename lookup has a key exactly for each normalised rename of a
   * declaration, and maps it to the rename of the last declaration that
   * normalises to it.
   */
  lemma RenameIndexSpec(deps: seq<ManifestDep>)
    ensures forall k :: k in RenameIndex(deps) <==>
              exists i :: 0 <= i < |deps| && deps[i].rename.Some? && Normalize(deps[i].rename.value) == k
    ensures forall i :: LastRenamed(deps, i) ==>
              RenameIndex(deps)[Normalize(deps[i].rename.value)] == deps[i].rename.value
    ensures forall k :: k in RenameIndex(deps) ==> Normalize(RenameIndex(deps)[k]) == k
    ensures forall k :: k in RenameIndex(deps) ==>
              exists i :: 0 <= i < |deps| && deps[i].rename == Some(RenameIndex(deps)[k])
  {
    RenameIndexKeys(deps);
    RenameIndexLast(deps);
    RenameIndexValues(deps);
  }

  /** The keys of the rename lookup. */
  lemma {:induction false} RenameIndexKeys(deps: seq<ManifestDep>)
    ensures forall k :: k in RenameIndex(deps) <==>
              exists i :: 0 <= i < |deps| && deps[i].rename.Some? && Normalize(deps[i].rename.value) == k
  {
    if deps != [] {
      var init := deps[..|deps| - 1];
      RenameIndexKeys(init);
      RenameIndexSnoc(deps);
      forall k
        ensures k in RenameIndex(deps) <==>
                  exists i :: 0 <= i < |deps| && deps[i].rename.Some? && Normalize(deps[i].rename.value) == k
      {
        if k in RenameIndex(init) {
          var i :| 0 <= i < |init| && init[i].rename.Some? && Normalize(init[i].rename.value) == k;
          assert deps[i] == init[i];
        }
        if exists i :: 0 <= i < |deps| && deps[i].rename.Some? && Normalize(deps[i].rename.value) == k {
          var i :| 0 <= i < |deps| && deps[i].rename.Some? && Normalize(deps[i].rename.value) == k;
          if i < |init| {
            assert init[i] == deps[i];
          }
        }
      }
    }
  }

  /** The values of the rename lookup: declared renames, each normalising to its key. */
  lemma {:induction false} RenameIndexValues(deps: seq<ManifestDep>)
    ensures forall k :: k in RenameIndex(deps) ==> Normalize(RenameIndex(deps)[k]) == k
    ensures forall k :: k in RenameIndex(deps) ==>
              exists i :: 0 <= i < |deps| && deps[i].rename == Some(RenameIndex(deps)[k])
  {
    if deps != [] {
      var init, last := deps[..|deps| - 1], deps[|deps| - 1];
      RenameIndexValues(init);
      RenameIndexSnoc(deps);
      forall k | k in RenameIndex(deps)
        ensures Normalize(RenameIndex(deps)[k]) == k
        ensures exists i :: 0 <= i < |deps| && deps[i].rename == Some(RenameIndex(deps)[k])
      {
        if last.rename.Some? && k == Normalize(last.rename.value) {
          assert deps[|deps| - 1].rename == Some(RenameIndex(deps)[k]);
        } else {
          var i :| 0 <= i < |init| && init[i].rename == Some(RenameIndex(init)[k]);
          assert deps[i] == init[i];
        }
      }
    }
  }

  /** The last declaration with a given normalised rename wins. */
  lemma {:induction false} RenameIndexLast(deps: seq<ManifestDep>)
    ensures forall i :: LastRenamed(deps, i) ==>
              && Normalize(deps[i].rename.value) in RenameIndex(deps)
              && RenameIndex(deps)[Normalize(deps[i].rename.value)] == deps[i].rename.value
  {
    if deps != [] {
      var init := deps[..|deps| - 1];
      RenameIndexLast(init);
      RenameIndexSnoc(deps);
      forall i | LastRenamed(deps, i)
        ensures Normalize(deps[i].rename.value) in RenameIndex(deps)
        ensures RenameIndex(deps)[Normalize(deps[i].rename.value)] == deps[i].rename.value
      {
        if i < |init| {
          assert init[i] == deps[i];
          assert LastRenamed(init, i);
        }
      }
    }
  }

  /** One more declaration updates the rename lookup with its rename, if it has one. */
  lemma RenameIndexSnoc(deps: seq<ManifestDep>)
    requires deps != []
    ensures var last := deps[|deps| - 1];
            RenameIndex(deps) == if last.rename.Some?
              then RenameIndex(deps[..|deps| - 1])[Normalize(last.rename.value) := last.rename.value]
              else RenameIndex(deps[..|deps| - 1])
  {
    var init, last := deps[..|deps| - 1], deps[|deps| - 1];
    if last.rename.Some? {
      var p := (Normalize(last.rename.value), last.rename.value);
      assert RenamePairs(deps) == RenamePairs(init) + [p];
      Maps.CollectSnoc(RenamePairs(init), p);
    } else {
      assert RenamePairs(deps) == RenamePairs(init) + [];
      assert RenamePairs(init) + [] == RenamePairs(init);
    }
  }

  function Lookup(m: map<string, string>, k: string): (r: Option<string>)
    ensures r.Some? <==> k in m
    ensures r.Some? ==> r.value == m[k]
  {
    if k in m then Some(m[k]) else None
  }

  /** The public-target entries contributed by the root's resolved dependencies, in order. */
  function EdgeEntries(rds: seq<Resolved>, renamed: map<string, string>): (es: seq<(TargetKey, Option<string>)>)
    ensures |es| == |rds|
    ensures forall i :: 0 <= i < |rds| ==>
              es[i] == ((rds[i].package.id, rds[i].depKind.req), Lookup(renamed, rds[i].rename))
  {
    seq(|rds|, i requires 0 <= i < |rds| =>
      ((rds[i].package.id, rds[i].depKind.req), Lookup(renamed, rds[i].rename)))
  }

  /** The synthetic entries for a real root: its library and all its binaries, without rename. */
  function TopLevelEntries(rootIsReal: bool, rootId: PkgId): seq<(TargetKey, Option<string>)>
  {
    if rootIsReal then [((rootId, TargetReq.Lib), None), ((rootId, TargetReq.EveryBin), None)] else []
  }

  /** The public-target map: root edges first, then the synthetic entries, the last write winning. */
  function PublicTargets(rootIsReal: bool, root: Manifest, rds: seq<Resolved>): map<TargetKey, Option<string>>
  {
    Maps.Collect(EdgeEntries(rds, RenameIndex(root.dependencies)) + TopLevelEntries(rootIsReal, root.id))
  }

  /** The key a resolved dependency contributes. */
  function EdgeKey(r: Resolved): TargetKey
  {
    (r.package.id, r.depKind.req)
  }

  /**
   * For a real root, its library and binaries are public without rename,
   * overriding any root edge to the root itself; for a virtual root, the
   * public targets are exactly the keys of the root's resolved dependencies.
   */
  lemma PublicTargetsRoot(rootIsReal: bool, root: Manifest, rds: seq<Resolved>)
    ensures rootIsReal ==>
              && (root.id, TargetReq.Lib) in PublicTargets(rootIsReal, root, rds)
              && PublicTargets(rootIsReal, root, rds)[(root.id, TargetReq.Lib)] == None
              && (root.id, TargetReq.EveryBin) in PublicTargets(rootIsReal, root, rds)
              && PublicTargets(rootIsReal, root, rds)[(root.id, TargetReq.EveryBin)] == None
    ensures !rootIsReal ==>
              PublicTargets(rootIsReal, root, rds).Keys == set r | r in rds :: EdgeKey(r)
  {
    PublicTargetsSplit(rootIsReal, root, rds);
    if !rootIsReal {
      EdgeEntriesKeys(rds, RenameIndex(root.dependencies));
    }
  }

  /** The keys of the edge entries are the keys of the resolved dependencies. */
  lemma EdgeEntriesKeys(rds: seq<Resolved>, renamed: map<string, string>)
    ensures Maps.KeysOf(EdgeEntries(rds, renamed)) == set r | r in rds :: EdgeKey(r)
  {
    var edges := EdgeEntries(rds, renamed);
    forall k
      ensures k in Maps.KeysOf(edges) <==> k in set r | r in rds :: EdgeKey(r)
    {
      if k in Maps.KeysOf(edges) {
        var i :| 0 <= i < |edges| && edges[i].0 == k;
        assert rds[i] in rds;
      }
      if k in set r | r in rds :: EdgeKey(r) {
        var r :| r in rds && EdgeKey(r) == k;
        var i :| 0 <= i < |rds| && rds[i] == r;
        assert edges[i].0 == k;
      }
    }
  }

  /** The public-target map is the edge collection overridden by the synthetic entries. */
  lemma PublicTargetsSplit(rootIsReal: bool, root: Manifest, rds: seq<Resolved>)
    ensures PublicTargets(rootIsReal, root, rds)
              == Maps.Collect(EdgeEntries(rds, RenameIndex(root.dependencies)))
                 + if rootIsReal
                   then map[(root.id, TargetReq.Lib) := None, (root.id, TargetReq.EveryBin) := None]
                   else map[]
  {
    var edges := EdgeEntries(rds, RenameIndex(root.dependencies));
    var top := TopLevelEntries(rootIsReal, root.id);
    Maps.CollectAppend(edges, top);
    if rootIsReal {
      Maps.CollectSnoc([top[0]], top[1]);
      Maps.CollectSnoc([], top[0]);
      assert [] + [top[0]] == [top[0]];
      assert [top[0]] + [top[1]] == top;
    }
  }

  /**
   * Every root edge's key is public. A key that is not one of the
   * synthetic root entries maps to the rename looked up, with the edge's
   * name, for the last root edge with that key.
   */
  lemma PublicTargetsEdges(rootIsReal: bool, root: Manifest, rds: seq<Resolved>)
    ensures forall r :: r in rds ==> EdgeKey(r) in PublicTargets(rootIsReal, root, rds)
    ensures forall i :: 0 <= i < |rds|
              && (forall j :: i < j < |rds| ==> EdgeKey(rds[j]) != EdgeKey(rds[i]))
              && !(rootIsReal && EdgeKey(rds[i]) in {(root.id, TargetReq.Lib), (root.id, TargetReq.EveryBin)})
              ==> PublicTargets(rootIsReal, root, rds)[EdgeKey(rds[i])]
                    == Lookup(RenameIndex(root.dependencies), rds[i].rename)
  {
    PublicTargetsEdgeKeys(rootIsReal, root, rds);
    forall i | 0 <= i < |rds|
              && (forall j :: i < j < |rds| ==> EdgeKey(rds[j]) != EdgeKey(rds[i]))
              && !(rootIsReal && EdgeKey(rds[i]) in {(root.id, TargetReq.Lib), (root.id, TargetReq.EveryBin)})
      ensures PublicTargets(rootIsReal, root, rds)[EdgeKey(rds[i])]
                == Lookup(RenameIndex(root.dependencies), rds[i].rename)
    {
      PublicTargetsEdgeValue(rootIsReal, root, rds, i);
    }
  }

  /** Every root edge contributes its key. */
  lemma PublicTargetsEdgeKeys(rootIsReal: bool, root: Manifest, rds: seq<Resolved>)
    ensures forall r :: r in rds ==> EdgeKey(r) in PublicTargets(rootIsReal, root, rds)
  {
    PublicTargetsSplit(rootIsReal, root, rds);
    EdgeEntriesKeys(rds, RenameIndex(root.dependencies));
  }

  /** The last root edge with a non-synthetic key gives that key its looked-up rename. */
  lemma PublicTargetsEdgeValue(rootIsReal: bool, root: Manifest, rds: seq<Resolved>, i: nat)
    requires i < |rds|
    requires forall j :: i < j < |rds| ==> EdgeKey(rds[j]) != EdgeKey(rds[i])
    requires !(rootIsReal && EdgeKey(rds[i]) in {(root.id, TargetReq.Lib), (root.id, TargetReq.EveryBin)})
    ensures EdgeKey(rds[i]) in PublicTargets(rootIsReal, root, rds)
    ensures PublicTargets(rootIsReal, root, rds)[EdgeKey(rds[i])]
              == Lookup(RenameIndex(root.dependencies), rds[i].rename)
  {
    PublicTargetsSplit(rootIsReal, root, rds);
    Maps.CollectLastWins(EdgeEntries(rds, RenameIndex(root.dependencies)), i);
  }

  // ----- construction -----

  /** The loop of `Index::new` that collects the package of every public-target key. */
  method PackagesOf(publicTargets: map<TargetKey, Option<string>>) returns (packages: set<PkgId>)
    ensures packages == set k | k in publicTargets :: k.0
  {
    packages := {};
    var pending := publicTargets.Keys;
    while pending != {}
      invariant pending <= publicTargets.Keys
      invariant packages == set k | k in publicTargets.Keys - pending :: k.0
      decreases pending
    {
      var k :| k in pending;
      packages := packages + {k.0};
      pending := pending - {k};
    }
  }

  /** What `Index::new` needs of the metadata so that it does not panic. */
  ghost predicate Buildable(metadata: Metadata)
  {
    var catalog := PkgById(metadata.packages);
    var graph := NodeById(metadata.resolve.nodes);
    && metadata.resolve.root.Some?
    && metadata.resolve.root.value in catalog
    && metadata.resolve.root.value in graph
    && EdgesResolvable(catalog, graph[metadata.resolve.root.value].deps)
  }

  /**
   * `Index::new`: index the packages and resolve nodes by id, then compute
   * the public targets (root edges, then the synthetic root entries, last
   * write winning) and the public packages (the packages of those keys).
   * `Index::new` panics in each of these cases; here they are the errors.
   */
  method New(rootIsReal: bool, metadata: Metadata) returns (r: Result<Index, IndexError>)
    ensures metadata.resolve.root.None? ==> r == Err(MissingRoot)
    ensures metadata.resolve.root.Some? && metadata.resolve.root.value !in PkgById(metadata.packages) ==>
              r == Err(AmbiguousRoot)
    ensures r.Ok? <==> Buildable(metadata)
    ensures r.Ok? ==>
              var idx := r.value;
              && WellFormed(idx)
              && idx.pkgidToPkg == PkgById(metadata.packages)
              && idx.pkgidToNode == NodeById(metadata.resolve.nodes)
              && idx.root == idx.pkgidToPkg[metadata.resolve.root.value]
              && idx.publicTargets == PublicTargets(rootIsReal, idx.root, ResolvedDeps(idx, idx.root))
    ensures r.Ok? ==> forall id :: id in r.value.publicPackages <==> exists k :: k in r.value.publicTargets && k.0 == id
  {
    var pkgidToPkg := PkgById(metadata.packages);
    if metadata.resolve.root.None? {
      return Err(MissingRoot);
    }
    var rootId := metadata.resolve.root.value;
    if rootId !in pkgidToPkg {
      return Err(AmbiguousRoot);
    }
    var root := pkgidToPkg[rootId];
    var tmp := Index(pkgidToPkg, NodeById(metadata.resolve.nodes), root, {}, map[]);
    if root.id !in tmp.pkgidToNode {
      return Err(MissingNode);
    }
    if !EdgesResolvable(tmp.pkgidToPkg, tmp.pkgidToNode[root.id].deps) {
      return Err(UnresolvableEdge);
    }
    var publicTargets := PublicTargets(rootIsReal, root, ResolvedDeps(tmp, root));

    var publicPackages := PackagesOf(publicTargets);
    r := Ok(Index(tmp.pkgidToPkg, tmp.pkgidToNode, root, publicPackages, publicTargets));
  }

  // ----- queries -----

  /** Whether `pkg` is the root package; ids identify catalogued packages. */
  predicate IsRootPackage(idx: Index, pkg: Manifest)
    ensures WellFormed(idx) && pkg.id in idx.pkgidToPkg && idx.pkgidToPkg[pkg.id] == pkg ==>
              (IsRootPackage(idx, pkg) <==> pkg == idx.root)
  {
    idx.root.id == pkg.id
  }

  /** Whether some target of `pkg` is public. */
  predicate IsPublicPackage(idx: Index, pkg: Manifest)
    ensures WellFormed(idx) ==>
              (IsPublicPackage(idx, pkg) <==> exists req :: (pkg.id, req) in idx.publicTargets)
  {
    pkg.id in idx.publicPackages
  }

  /** Whether the target `req` of `pkg` is public; its package is then public. */
  predicate IsPublicTarget(idx: Index, pkg: Manifest, req: TargetReq)
    ensures WellFormed(idx) && IsPublicTarget(idx, pkg, req) ==> IsPublicPackage(idx, pkg)
  {
    (pkg.id, req) in idx.publicTargets
  }

  /** The rename under which the library of `pkg` is public, if it is public with one. */
  function LibRename(idx: Index, pkg: Manifest): Option<string>
  {
    var k := (pkg.id, TargetReq.Lib);
    if k in idx.publicTargets then idx.publicTargets[k] else None
  }

  /**
   * The public rule name: the library's rename if it has one, else the
   * package name. A package is named otherwise only when its library is
   * a public target.
   */
  function PublicRuleName(idx: Index, pkg: Manifest): (name: string)
    ensures name != pkg.name ==> IsPublicTarget(idx, pkg, TargetReq.Lib)
  {
    match LibRename(idx, pkg)
    case Some(rename) => rename
    case None => pkg.name
  }

  /**
   * The private rule name: the package's display text `shown` (its name and
   * version), suffixed with `-` and the library's rename if it has one.
   */
  function PrivateRuleName(idx: Index, pkg: Manifest, shown: string): (name: string)
    ensures shown <= name
    ensures name != shown ==> IsPublicTarget(idx, pkg, TargetReq.Lib)
  {
    match LibRename(idx, pkg)
    case Some(rename) => shown + "-" + rename
    case None => shown
  }

  /**
   * The two rule names agree: the private one carries the public one as
   * suffix exactly when the library is public under a rename; without a
   * rename the public name is the package's own.
   */
  lemma RuleNamesAgree(idx: Index, pkg: Manifest, shown: string)
    ensures LibRename(idx, pkg).Some? ==>
              PrivateRuleName(idx, pkg, shown) == shown + "-" + PublicRuleName(idx, pkg)
    ensures LibRename(idx, pkg).None? ==>
              PrivateRuleName(idx, pkg, shown) == shown && PublicRuleName(idx, pkg) == pkg.name
  {
  }

  /**
   * For an index whose public targets were computed from the root's
   * resolved dependencies, a public rule name is the package's own name or
   * a rename the root declares, and a real root is named after itself.
   */
  lemma PublicRuleNameOrigin(idx: Index, rootIsReal: bool, pkg: Manifest, shown: string)
    requires idx.root.id in idx.pkgidToNode
    requires EdgesResolvable(idx.pkgidToPkg, idx.pkgidToNode[idx.root.id].deps)
    requires idx.publicTargets == PublicTargets(rootIsReal, idx.root, ResolvedDeps(idx, idx.root))
    ensures PublicRuleName(idx, pkg) == pkg.name
              || exists d :: d in idx.root.dependencies && d.rename == Some(PublicRuleName(idx, pkg))
    ensures rootIsReal && pkg.id == idx.root.id ==>
              PublicRuleName(idx, pkg) == pkg.name && PrivateRuleName(idx, pkg, shown) == shown
  {
    var k := (pkg.id, TargetReq.Lib);
    var rds := ResolvedDeps(idx, idx.root);
    if k in idx.publicTargets && idx.publicTargets[k].Some? {
      PublicRenameOrigin(rootIsReal, idx.root, rds, k);
      var d :| d in idx.root.dependencies && d.rename == idx.publicTargets[k];
      assert d.rename == Some(PublicRuleName(idx, pkg));
    }
    if rootIsReal {
      PublicTargetsRoot(rootIsReal, idx.root, rds);
    }
  }

  /** Every rename in the public-target map is a rename the root declares. */
  lemma PublicRenameOrigin(rootIsReal: bool, root: Manifest, rds: seq<Resolved>, k: TargetKey)
    requires k in PublicTargets(rootIsReal, root, rds) && PublicTargets(rootIsReal, root, rds)[k].Some?
    ensures exists d :: d in root.dependencies && d.rename == PublicTargets(rootIsReal, root, rds)[k]
  {
    var deps := root.dependencies;
    var edges := EdgeEntries(rds, RenameIndex(deps));
    PublicTargetsSplit(rootIsReal, root, rds);
    var rename := PublicTargets(rootIsReal, root, rds)[k].value;
    assert k in Maps.Collect(edges) && Maps.Collect(edges)[k] == Some(rename);
    Maps.CollectValueOrigin(edges, k);
    var i :| 0 <= i < |edges| && edges[i] == (k, Some(rename));
    RenameIndexValues(deps);
    var j :| 0 <= j < |deps| && deps[j].rename == Some(rename);
    assert deps[j] in deps;
  }

  // ----- dependencies of a target -----

  /**
   * Which declared dependency kinds a target draws on: normal ones for
   * libraries, proc-macros, binaries and cdylibs; dev ones for benches,
   * tests and examples; build ones for build scripts.
   */
  predicate Applies(kind: DepKind, tgt: ManifestTarget)
  {
    match kind
    case Normal => KindLib(tgt) || KindProcMacro(tgt) || KindBin(tgt) || KindCdylib(tgt)
    case Dev => KindBench(tgt) || KindTest(tgt) || KindExample(tgt)
    case Build => KindCustomBuild(tgt)
  }

  function FilterApplicable(ds: seq<ManifestDep>, tgt: ManifestTarget): (r: seq<ManifestDep>)
    ensures forall d :: d in r <==> d in ds && Applies(d.kind, tgt)
    ensures forall d :: multiset(r)[d] == if Applies(d.kind, tgt) then multiset(ds)[d] else 0
  {
    if ds == [] then []
    else
      assert ds == [ds[0]] + ds[1..];
      (if Applies(ds[0].kind, tgt) then [ds[0]] else []) + FilterApplicable(ds[1..], tgt)
  }

  /**
   * `deps_for_target`: the package's declarations whose kind applies to
   * the target, each as often as it is declared. The target must be one of
   * the package's (`deps_for_target` asserts it).
   */
  function DepsForTarget(pkg: Manifest, tgt: ManifestTarget): (ds: seq<ManifestDep>)
    requires tgt in pkg.targets
    ensures forall d :: d in ds <==> d in pkg.dependencies && Applies(d.kind, tgt)
    ensures forall d :: multiset(ds)[d] == if Applies(d.kind, tgt) then multiset(pkg.dependencies)[d] else 0
  {
    FilterApplicable(pkg.dependencies, tgt)
  }

  /** A target that is only a test, bench or example draws on dev dependencies alone. */
  lemma DevOnlyTargets(pkg: Manifest, tgt: ManifestTarget)
    requires tgt in pkg.targets && tgt.kinds <= {Bench, Test, Example}
    ensures forall d :: d in DepsForTarget(pkg, tgt) <==> d in pkg.dependencies && d.kind == Dev && tgt.kinds != {}
  {
  }

  /** A target that is only a library, proc-macro, binary or cdylib draws on normal dependencies alone. */
  lemma NormalOnlyTargets(pkg: Manifest, tgt: ManifestTarget)
    requires tgt in pkg.targets && tgt.kinds <= {TargetKind.Lib, ProcMacro, TargetKind.Bin, TargetKind.Cdylib}
    ensures forall d :: d in DepsForTarget(pkg, tgt) <==> d in pkg.dependencies && d.kind == Normal && tgt.kinds != {}
  {
  }

  /** The declarations of the dependency called `name`. */
  function GroupOf(ds: seq<ManifestDep>, name: string): set<ManifestDep>
  {
    set d | d in ds && d.name == name
  }

  predicate Declares(ds: seq<ManifestDep>, name: string)
  {
    exists d :: d in ds && d.name == name
  }

  /** The resolved dependencies whose package is declared under its own name, in order. */
  function Matching(rds: seq<Resolved>, ds: seq<ManifestDep>): seq<Resolved>
  {
    if rds == [] then []
    else
      var last := rds[|rds| - 1];
      Matching(rds[..|rds| - 1], ds) + (if Declares(ds, last.package.name) then [last] else [])
  }

  /** Extending the prefix by one resolved dependency appends it exactly when it is declared. */
  lemma MatchingSnoc(rds: seq<Resolved>, ds: seq<ManifestDep>, j: nat)
    requires j < |rds|
    ensures Matching(rds[..j + 1], ds)
              == Matching(rds[..j], ds) + (if Declares(ds, rds[j].package.name) then [rds[j]] else [])
  {
    assert rds[..j + 1][..j] == rds[..j];
  }

  /** A resolved dependency is kept exactly when some declaration names its package. */
  lemma {:induction false} MatchingMember(rds: seq<Resolved>, ds: seq<ManifestDep>, x: Resolved)
    ensures x in Matching(rds, ds) <==> x in rds && Declares(ds, x.package.name)
  {
    if rds != [] {
      var init := rds[..|rds| - 1];
      MatchingMember(init, ds, x);
      assert rds == init + [rds[|rds| - 1]];
    }
  }

  /** Declarations with no platform condition. */
  predicate Unconditional(group: set<ManifestDep>)
  {
    exists m :: m in group && m.target.None?
  }

  /** Declarations whose platform condition parses. */
  function ParsedIn(group: set<ManifestDep>, parse: string -> Option<PlatformPredicate>): set<ManifestDep>
  {
    set m | m in group && m.target.Some? && parse(m.target.value).Some?
  }

  /** The predicates those conditions parse to. */
  function ParsedPredicates(group: set<ManifestDep>, parse: string -> Option<PlatformPredicate>): set<PlatformPredicate>
  {
    set m | m in group && m.target.Some? && parse(m.target.value).Some? :: parse(m.target.value).value
  }

  /**
   * The combined guard of a group of declarations: none when one of them is
   * unconditional or when no condition parses; `cfg(p)` for a single parsed
   * predicate; otherwise `cfg(any(...))` listing one parsed predicate per
   * parsed declaration, in some order. Conditions that fail to parse are
   * dropped.
   */
  ghost predicate GuardSpec(group: set<ManifestDep>, parse: string -> Option<PlatformPredicate>, g: Option<PlatformExpr>)
  {
    var n := |ParsedIn(group, parse)|;
    if Unconditional(group) || n == 0 then g == None
    else if n == 1 then g.Some? && g.value.pred in ParsedPredicates(group, parse)
    else
      && g.Some? && g.value.pred.Any?
      && |g.value.pred.alternatives| == n
      && forall p :: p in g.value.pred.alternatives <==> p in ParsedPredicates(group, parse)
  }

  /**
   * The inner loop of `resolved_deps_for_target`: goes through the group in
   * whatever order its set yields, collects the parsed conditions, skips
   * those that fail to parse, and stops with no guard at an unconditional one.
   */
  method MergeGuard(group: set<ManifestDep>, parse: string -> Option<PlatformPredicate>) returns (g: Option<PlatformExpr>)
    ensures GuardSpec(group, parse, g)
  {
    var platforms: seq<PlatformPredicate> := [];
    var rest := group;
    ghost var unconditional := false;
    while rest != {}
      invariant rest <= group
      invariant !unconditional
      invariant forall m :: m in group - rest ==> m.target.Some?
      invariant |platforms| == |ParsedIn(group - rest, parse)|
      invariant forall p :: p in platforms <==> p in ParsedPredicates(group - rest, parse)
      decreases rest
    {
      var mdep :| mdep in rest;
      ghost var done := group - rest;
      rest := rest - {mdep};
      assert group - rest == done + {mdep};
      if mdep.target.Some? {
        var parsed := parse(mdep.target.value);
        if parsed.Some? {
          assert ParsedIn(group - rest, parse) == ParsedIn(done, parse) + {mdep};
          platforms := platforms + [parsed.value];
        } else {
          // `resolved_deps_for_target` logs the parse error and skips this declaration
          assert ParsedIn(group - rest, parse) == ParsedIn(done, parse);
        }
      } else {
        platforms := [];
        unconditional := true;
        break;
      }
    }
    if unconditional {
      assert Unconditional(group);
    } else {
      assert group - rest == group;
    }
    if |platforms| == 0 {
      g := None;
    } else if |platforms| == 1 {
      g := Some(Cfg(platforms[0]));
    } else {
      g := Some(Cfg(Any(platforms)));
    }
  }

  /**
   * The combined guard does not depend on the order in which the group is
   * visited: two guards that meet the specification are both absent, or
   * are the same `cfg(p)`, or list the same predicates equally often.
   */
  lemma GuardOrderIndependent(group: set<ManifestDep>, parse: string -> Option<PlatformPredicate>,
                              g1: Option<PlatformExpr>, g2: Option<PlatformExpr>)
    requires GuardSpec(group, parse, g1) && GuardSpec(group, parse, g2)
    ensures g1.None? <==> g2.None?
    ensures g1.Some? && !g1.value.pred.Any? ==> g1 == g2
    ensures g1.Some? && g1.value.pred.Any? ==>
              g2.Some? && g2.value.pred.Any?
              && |g1.value.pred.alternatives| == |g2.value.pred.alternatives|
              && forall p :: p in g1.value.pred.alternatives <==> p in g2.value.pred.alternatives
  {
    var parsed := ParsedIn(group, parse);
    if !Unconditional(group) && |parsed| == 1 {
      var m :| m in parsed;
      assert parsed == {m} by {
        assert |parsed - {m}| == 0;
      }
      forall p | p in ParsedPredicates(group, parse)
        ensures p == parse(m.target.value).value
      {
        var m' :| m' in group && m'.target.Some? && parse(m'.target.value).Some? && parse(m'.target.value).value == p;
        assert m' in parsed;
      }
    }
  }

  /** One dependency of a target: the package, its combined guard, the name it is known by, the kind record. */
  datatype ResolvedDep = ResolvedDep(
    package: Manifest,
    platform: Option<PlatformExpr>,
    rename: string,
    depKind: NodeDepKind)

  /** The first loop of `resolved_deps_for_target`: the declarations grouped by dependency name. */
  method GroupByName(declared: seq<ManifestDep>) returns (deps: map<string, set<ManifestDep>>)
    ensures forall n :: n in deps <==> Declares(declared, n)
    ensures forall n :: n in deps ==> deps[n] == GroupOf(declared, n)
  {
    deps := map[];
    for i := 0 to |declared|
      invariant forall n :: n in deps <==> Declares(declared[..i], n)
      invariant forall n :: n in deps ==> deps[n] == GroupOf(declared[..i], n)
    {
      var dep := declared[i];
      assert declared[..i + 1] == declared[..i] + [dep];
      var group := if dep.name in deps then deps[dep.name] else {};
      deps := deps[dep.name := group + {dep}];
    }
    assert declared[..|declared|] == declared;
  }

  /** `out` describes the resolved dependency `rd`, guarded by the merge of its declarations in `ds`. */
  ghost predicate Describes(out: ResolvedDep, rd: Resolved, ds: seq<ManifestDep>,
                            parse: string -> Option<PlatformPredicate>)
  {
    && out.package == rd.package
    && out.rename == rd.rename
    && out.depKind == rd.depKind
    && GuardSpec(GroupOf(ds, rd.package.name), parse, out.platform)
  }

  /**
   * `resolved_deps_for_target`: group the declarations that apply to the
   * target by name, then keep, in order, each resolved dependency whose
   * package name has declarations, with the combined guard of those
   * declarations. The requirements are those of `deps_for_target` and
   * `resolved_deps`.
   */
  method ResolvedDepsForTarget(idx: Index, pkg: Manifest, tgt: ManifestTarget,
                               parse: string -> Option<PlatformPredicate>) returns (out: seq<ResolvedDep>)
    requires tgt in pkg.targets
    requires pkg.id in idx.pkgidToNode
    requires EdgesResolvable(idx.pkgidToPkg, idx.pkgidToNode[pkg.id].deps)
    ensures var hits := Matching(ResolvedDeps(idx, pkg), DepsForTarget(pkg, tgt));
            && |out| == |hits|
            && forall i :: 0 <= i < |out| ==> Describes(out[i], hits[i], DepsForTarget(pkg, tgt), parse)
  {
    var declared := DepsForTarget(pkg, tgt);
    var deps := GroupByName(declared);

    var resolved := ResolvedDeps(idx, pkg);
    out := [];
    ghost var hits := [];
    for j := 0 to |resolved|
      invariant hits == Matching(resolved[..j], declared)
      invariant |out| == |hits|
      invariant forall i :: 0 <= i < |out| ==> Describes(out[i], hits[i], declared, parse)
    {
      var rd := resolved[j];
      MatchingSnoc(resolved, declared, j);
      if rd.package.name in deps {
        var platform := MergeGuard(deps[rd.package.name], parse);
        out := out + [ResolvedDep(rd.package, platform, rd.rename, rd.depKind)];
        hits := hits + [rd];
      }
    }
    assert resolved[..|resolved|] == resolved;
  }

  /**
   * The dependencies of a target are resolved dependencies of the package
   * whose package name is declared by a declaration that applies to the
   * target, and every such resolved dependency is among them.
   */
  lemma ResolvedDepsForTargetMembers(idx: Index, pkg: Manifest, tgt: ManifestTarget, rd: Resolved)
    requires tgt in pkg.targets
    requires pkg.id in idx.pkgidToNode
    requires EdgesResolvable(idx.pkgidToPkg, idx.pkgidToNode[pkg.id].deps)
    ensures rd in Matching(ResolvedDeps(idx, pkg), DepsForTarget(pkg, tgt)) <==>
              rd in ResolvedDeps(idx, pkg)
              && exists d :: d in pkg.dependencies && Applies(d.kind, tgt) && d.name == rd.package.name
  {
    MatchingMember(ResolvedDeps(idx, pkg), DepsForTarget(pkg, tgt), rd);
  }

  // ----- extra metadata -----

  /** Per-package extra metadata: the maintainer to record. */
  datatype ExtraMetadata = ExtraMetadata(oncall: string)

  /** Why extra metadata is rejected. */
  datatype ExtraMetaError =
    | Malformed(reason: string)          // the "third-party" value does not decode
    | ExtraPackages(names: set<string>)  // keys that name no direct dependency of the root

  const THIRD_PARTY: string := "third-party"

  /** Accumulates the names of metadata entries that match no package. */
  class PackageMetaError {
    var extra: set<string>

    constructor ()
      ensures extra == {}
    {
      extra := {};
    }

    function AllOk(): (ok: bool)
      reads this
      ensures ok <==> |extra| == 0
    {
      extra == {}
    }

    method AddExtra(s: string)
      modifies this
      ensures extra == old(extra) + {s}
    {
      extra := extra + {s};
    }
  }

  /**
   * The loop of `get_extra_meta`: keeps the entries whose key is a known
   * name and records every other key in `pkgerrs`.
   */
  method SplitByName(res: map<string, ExtraMetadata>, known: set<string>, pkgerrs: PackageMetaError)
    returns (ret: map<string, ExtraMetadata>)
    modifies pkgerrs
    ensures ret.Keys == res.Keys * known
    ensures forall n :: n in ret ==> ret[n] == res[n]
    ensures pkgerrs.extra == old(pkgerrs.extra) + (res.Keys - known)
  {
    ret := map[];
    var pending := res.Keys;
    ghost var done: set<string> := {};
    while pending != {}
      invariant done !! pending && done + pending == res.Keys
      invariant ret.Keys == done * known
      invariant forall n :: n in ret ==> ret[n] == res[n]
      invariant pkgerrs.extra == old(pkgerrs.extra) + (done - known)
      decreases pending
    {
      var name :| name in pending;
      if name !in known {
        pkgerrs.AddExtra(name);
      } else {
        ret := ret[name := res[name]];
      }
      pending := pending - {name};
      done := done + {name};
    }
  }

  /** The names of the root's direct declared dependencies. */
  function DirectDepNames(root: Manifest): set<string>
  {
    set d | d in root.dependencies :: d.name
  }

  /** The decoded "third-party" table; an absent key decodes to the empty table. */
  function ThirdPartyTable(root: Manifest, decode: string -> Result<map<string, ExtraMetadata>, string>)
    : Result<map<string, ExtraMetadata>, string>
  {
    if THIRD_PARTY in root.metadata then decode(root.metadata[THIRD_PARTY]) else Ok(map[])
  }

  /** The kept part is the whole table exactly when no key is left over. */
  lemma SplitOutcome(res: map<string, ExtraMetadata>, known: set<string>, ret: map<string, ExtraMetadata>)
    requires ret.Keys == res.Keys * known
    requires forall n :: n in ret ==> ret[n] == res[n]
    ensures res.Keys - known == {} <==> res.Keys <= known
    ensures res.Keys - known == {} ==> ret == res
  {
    if res.Keys - known == {} {
      forall n | n in res.Keys
        ensures n in known
      {
        assert n !in res.Keys - known;
      }
    }
  }

  /**
   * `get_extra_meta`: decode the root's "third-party" table and check every
   * key against the root's direct dependency names. The table comes back
   * unchanged when every key names one; otherwise the error lists exactly
   * the keys that do not, all of them together.
   */
  method GetExtraMeta(idx: Index, decode: string -> Result<map<string, ExtraMetadata>, string>)
    returns (r: Result<map<string, ExtraMetadata>, ExtraMetaError>)
    ensures ThirdPartyTable(idx.root, decode).Err? ==> r == Err(Malformed(ThirdPartyTable(idx.root, decode).error))
    ensures ThirdPartyTable(idx.root, decode).Ok? ==>
              var table := ThirdPartyTable(idx.root, decode).value;
              && (r.Ok? <==> table.Keys <= DirectDepNames(idx.root))
              && (r.Ok? ==> r.value == table)
              && (r.Err? ==> r.error == ExtraPackages(table.Keys - DirectDepNames(idx.root)))
  {
    var pubpkgs := DirectDepNames(idx.root);
    var pkgerrs := new PackageMetaError();
    var decoded := ThirdPartyTable(idx.root, decode);
    if decoded.Err? {
      return Err(Malformed(decoded.error));
    }
    var res := decoded.value;

    var ret := SplitByName(res, pubpkgs, pkgerrs);
    SplitOutcome(res, pubpkgs, ret);
    if pkgerrs.AllOk() {
      r := Ok(ret);
    } else {
      r := Err(ExtraPackages(pkgerrs.extra));
    }
  }
}
