/**
 * The part of Cargo's metadata that the index and the lockfile read:
 * manifests, declared dependencies, build targets and the resolve graph.
 * Pieces computed by code that is not part of this model are carried as
 * data (the TargetReq of a resolved dependency kind) or abstracted
 * (a platform predicate is an atom or an `any(...)` of predicates).
 */
module Cargo {
  import opened Wrappers

  /** Opaque package identifier, as `cargo metadata` prints it. */
  type PkgId = string

  /** Where a package comes from (registry, git, path), compared as text. */
  type Source = string

  /** A semantic version; pre-release and build metadata are not modelled. */
  datatype Version = Version(major: nat, minor: nat, patch: nat)

  /** The kind of a declared dependency. */
  datatype DepKind = Normal | Dev | Build

  /** The kinds a build target may carry. */
  datatype TargetKind =
    | Lib | ProcMacro | Bin | Cdylib | Bench | Test | Example | CustomBuild
    | OtherKind(kind: string)

  datatype ManifestTarget = ManifestTarget(name: string, kinds: set<TargetKind>)

  /** A dependency as declared in a manifest; `target` is its platform condition. */
  datatype ManifestDep = ManifestDep(
    name: string,
    rename: Option<string>,
    kind: DepKind,
    target: Option<string>)

  /** One package of the metadata; `metadata` holds the raw text of each key of its metadata table. */
  datatype Manifest = Manifest(
    id: PkgId,
    name: string,
    version: Version,
    source: Option<Source>,
    dependencies: seq<ManifestDep>,
    targets: seq<ManifestTarget>,
    metadata: map<string, string>)

  /** What a dependency edge requires of the package it points at. */
  datatype TargetReq = Lib | EveryBin | Bin(name: string) | Cdylib | Staticlib

  /**
   * One dependency-kind record of a resolved edge. `req` is the value
   * NodeDepKind::target_req() computes from the record's artifact fields.
   */
  datatype NodeDepKind = NodeDepKind(
    kind: DepKind,
    externName: Option<string>,
    target: Option<string>,
    req: TargetReq)

  /** A resolved dependency edge: the package it resolves to and how it is used. */
  datatype NodeDep = NodeDep(pkg: PkgId, name: Option<string>, depKinds: seq<NodeDepKind>)

  /** A node of the resolve graph. */
  datatype Node = Node(id: PkgId, deps: seq<NodeDep>, features: seq<string>)

  datatype Resolve = Resolve(root: Option<PkgId>, nodes: seq<Node>)

  datatype Metadata = Metadata(packages: seq<Manifest>, resolve: Resolve)

  /** A parsed platform predicate; the cfg grammar itself is not modelled. */
  datatype PlatformPredicate = Atom(cfg: string) | Any(alternatives: seq<PlatformPredicate>)

  /** The guard expression `cfg(<predicate>)` attached to a dependency. */
  datatype PlatformExpr = Cfg(pred: PlatformPredicate)

  predicate KindLib(t: ManifestTarget) { TargetKind.Lib in t.kinds }
  predicate KindProcMacro(t: ManifestTarget) { ProcMacro in t.kinds }
  predicate KindBin(t: ManifestTarget) { TargetKind.Bin in t.kinds }
  predicate KindCdylib(t: ManifestTarget) { TargetKind.Cdylib in t.kinds }
  predicate KindBench(t: ManifestTarget) { Bench in t.kinds }
  predicate KindTest(t: ManifestTarget) { Test in t.kinds }
  predicate KindExample(t: ManifestTarget) { Example in t.kinds }
  predicate KindCustomBuild(t: ManifestTarget) { CustomBuild in t.kinds }
}
