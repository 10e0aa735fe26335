# reindeer metadata index and lockfile, modelled in Dafny

This project models two components of reindeer, a tool that turns Cargo metadata into Buck build rules:

- **The metadata `Index`** (`src/index.rs`). It is built once from a `cargo metadata` snapshot. Construction indexes packages and resolve nodes by package id. It then computes the *public surface*: a map from `(package id, TargetReq)` to an optional rename, and the set of public packages. Later it answers queries: whether a package is the root or is public, the public and private rule names, the resolved dependencies of a package, the declared dependencies that apply to a build target, and the central merge `resolved_deps_for_target`. That merge keeps the resolved edges that some applicable declaration names. It gives each edge one platform guard combined from those declarations. It also validates the root's "third-party" extra-metadata table against the root's direct dependency names.
- **The `Lockfile`** (`src/lockfile.rs`). Its entries are sorted in place by `(name, version, source)` when loaded. A manifest's entry is then found by binary search on the same key. The `version` marker is checked for the value 3, with only a warning on mismatch.

Files:

- `wrappers.dfy`: `Option` and `Result`.
- `cargo.dfy`: the Cargo data model. Manifests, declared dependencies, targets, resolve nodes and edges, `TargetReq`, and platform predicates.
- `maps.dfy`: `Collect`, the last-write-wins construction of a map from a sequence of pairs (Rust's `collect` into a map), with its lemmas.
- `index.dfy`: module `MetadataIndex`, everything in `src/index.rs`.
- `keyorder.dfy`: the lexicographic order on the lockfile key `(name, version, source)`, with the total-order lemmas that sorting and binary search rely on.
- `lockfile.dfy`: module `CargoLock`. The `Lockfile` class over an `array`, the in-place sort, the binary search, and the version check.

Foreign inputs are parameters:

- `PlatformPredicate::parse` is `parse: string -> Option<PlatformPredicate>`.
- Decoding the "third-party" JSON value is `decode: string -> Result<map<string, ExtraMetadata>, string>`.
- A manifest's `Display` text (its name and version) is the `shown` argument of `PrivateRuleName`.

`NodeDepKind::target_req()` is carried as the field `req` of each kind record. `ManifestTarget::kind_*()` are membership tests on the target's set of kinds.

Iteration over hash sets and maps is modelled by choosing an arbitrary remaining element (`:|`). This covers the declarations of one dependency name, the entries of the decoded table, and the keys of the public-target map. Every contract therefore holds whatever the iteration order.

Two behaviours of the code worth noting:

- The lockfile `version` is read as a `usize` (`src/lockfile.rs:71-74`). A negative value fails to decode. Every non-negative value is accepted, with a warning when it is not 3.
- In `resolved_deps` (`src/index.rs:262-266`), the missing-name and unknown-package `unwrap`s run inside the closure applied to each kind record. An edge with no kind records therefore never panics.

## Model

| member | source | states |
|---|---|---|
| `Maps.Collect` | src/index.rs:138-151 | the collected map has exactly the keys of the pairs |
| `Maps.CollectAppend` | src/index.rs:138-151 | collecting edge entries followed by the synthetic entries is the right-biased union of the two collections (last write wins) |
| `Maps.CollectLastWins` | src/index.rs:138-151 | a pair no later pair overrides gives the value of its key |
| `Maps.CollectValueOrigin` | src/index.rs:138-151 | every collected value comes from the last pair with that key |
| `MetadataIndex.ById` | src/index.rs:107 | a by-id table (the manifest catalog here, and the resolve graph of line 120 through the same definition) has a key exactly for each listed id, and maps it to a listed element with that id, namely the last element listed with that id |
| `MetadataIndex.FlattenEdges` | src/index.rs:251-270 | flattening the edges yields one entry per kind record of every edge |
| `MetadataIndex.FlattenAppend` | src/index.rs:251-270 | flattening edges distributes over concatenation, so entries come in edge order |
| `MetadataIndex.FlattenMember` | src/index.rs:256-269 | an entry is produced exactly for each kind record of each edge, under the edge name or else the extern name, with the edge's manifest |
| `MetadataIndex.ResolvedDeps` | src/index.rs:247-271 | one entry per kind record over all edges (count), and membership as above; requires the node, and the names and packages that `resolved_deps` unwraps |
| `MetadataIndex.Normalize` | src/index.rs:131-132 | the normalised name has the same length, keeps every character except `-`, and has `_` wherever the original had `-` |
| `MetadataIndex.RenameIndexSpec` | src/index.rs:126-134 | the rename lookup has a key exactly for each `-`→`_` normalised rename of a root declaration; each value normalises to its key, is a declared rename, and is the rename of the last declaration with that key |
| `MetadataIndex.PublicTargetsRoot` | src/index.rs:113-116 | for a real root, `(root, Lib)` and `(root, EveryBin)` are public with no rename, overriding root edges; for a virtual root, the public keys are exactly the keys of the root's resolved edges |
| `MetadataIndex.PublicTargetsEdges` | src/index.rs:138-151 | every root edge's `(package id, target_req)` key is public; a non-synthetic key maps to the rename looked up with the last such edge's name |
| `MetadataIndex.PackagesOf` | src/index.rs:153-155 | the public packages are exactly the first components of the public-target keys |
| `MetadataIndex.New` | src/index.rs:106-161 | the missing root, unknown root, missing node and unresolvable edge cases fail, and only they; otherwise the index is well formed, holds the catalog, graph and root, and its public targets are the last-write-wins collection of root edges then synthetic entries |
| `MetadataIndex.IsRootPackage` | src/index.rs:164-166 | for a catalogued package of a well-formed index, the id test holds exactly when the package is the root |
| `MetadataIndex.IsPublicPackage` | src/index.rs:169-171 | in a well-formed index, a package is public exactly when some target of it is public |
| `MetadataIndex.IsPublicTarget` | src/index.rs:174-176 | a public target's package is a public package |
| `MetadataIndex.PublicRuleName` | src/index.rs:192-197 | the name differs from the package name only when the package's library is a public target |
| `MetadataIndex.PrivateRuleName` | src/index.rs:184-189 | the name starts with the package's display text, and is longer only when the library is a public target |
| `MetadataIndex.RuleNamesAgree` | src/index.rs:184-197 | with a library rename, the private name is display text, `-`, public name; without one, they are the display text and the package name |
| `MetadataIndex.PublicRuleNameOrigin` | src/index.rs:138-151 | a public rule name is the package name or a rename the root declares; a real root's rule names carry no rename |
| `MetadataIndex.DepsForTarget` | src/index.rs:275-289 | requires the target to be the package's; keeps exactly the declarations whose kind applies to the target, each as often as declared |
| `MetadataIndex.DevOnlyTargets` | src/index.rs:286 | a target that is only a bench, test or example gets exactly the dev declarations |
| `MetadataIndex.NormalOnlyTargets` | src/index.rs:283-285 | a target that is only a lib, proc-macro, bin or cdylib gets exactly the normal declarations |
| `MetadataIndex.MatchingMember` | src/index.rs:309-311 | a resolved dependency is kept exactly when some applicable declaration has its package's name |
| `MetadataIndex.GroupByName` | src/index.rs:298-306 | the grouping has a key for each declared name, holding exactly the declarations of that name |
| `MetadataIndex.MergeGuard` | src/index.rs:313-341 | the guard is none if a declaration is unconditional (in any visiting order) or none parses; `cfg(p)` for one parsed predicate; `cfg(any(...))` with one entry per parsed declaration otherwise; unparseable ones dropped |
| `MetadataIndex.GuardOrderIndependent` | src/index.rs:315-333 | any two guards meeting that specification agree: both absent, the same `cfg(p)`, or `any` lists of the same length and members |
| `MetadataIndex.ResolvedDepsForTarget` | src/index.rs:292-346 | one result per kept resolved dependency, in order, with its package, name and kind record, and the merged guard of the applicable declarations of its name |
| `MetadataIndex.ResolvedDepsForTargetMembers` | src/index.rs:302-311 | a resolved dependency is in the target's result exactly when a declaration of that name applies to the target |
| `MetadataIndex.PackageMetaError.constructor` | src/index.rs:63-67 | starts with no extra names |
| `MetadataIndex.PackageMetaError.AllOk` | src/index.rs:69-71 | all is well exactly when no extra name was recorded |
| `MetadataIndex.PackageMetaError.AddExtra` | src/index.rs:73-75 | adds the one name to the set of extra names |
| `MetadataIndex.SplitByName` | src/index.rs:214-226 | keeps exactly the entries whose key is a direct dependency name, unchanged, and records every other key as extra |
| `MetadataIndex.GetExtraMeta` | src/index.rs:199-233 | a decode failure is returned as is; otherwise `Ok` exactly when every key names a direct dependency, with the table unchanged, and `Err` naming exactly the unmatched keys |
| `KeyOrder.CmpStrEqual` | src/lockfile.rs:34-37 | string comparison is `Equal` exactly on equal strings |
| `KeyOrder.CmpStrReverse` | src/lockfile.rs:34-37 | comparing strings the other way reverses the ordering |
| `KeyOrder.CmpStrTrans` | src/lockfile.rs:34-37 | `Less` on strings is transitive |
| `KeyOrder.CmpKeyEqual` | src/lockfile.rs:34-37 | the tuple comparison is `Equal` exactly on equal keys |
| `KeyOrder.CmpKeyReverse` | src/lockfile.rs:34-37 | comparing keys the other way reverses the ordering |
| `KeyOrder.CmpKeyTrans` | src/lockfile.rs:34-37 | `Less` on keys is transitive |
| `KeyOrder.KeyLeTotal` | src/lockfile.rs:34-37 | any two keys are ordered one way or the other |
| `KeyOrder.KeyLeTrans` | src/lockfile.rs:34-37 | not-greater is transitive |
| `KeyOrder.KeyLeLessTrans` | src/lockfile.rs:45-48 | a key not above one below the search key is below it (binary search moves right safely) |
| `KeyOrder.LeGreaterTrans` | src/lockfile.rs:45-48 | a key not below one above the search key is above it (binary search moves left safely) |
| `CargoLock.SortByKey` | src/lockfile.rs:34-38 | after the in-place sort the entries are in non-decreasing key order and a permutation of the old entries |
| `CargoLock.InsertDown` | src/lockfile.rs:34-38 | one sorting step: given a sorted prefix of length i, the prefix of length i+1 is sorted afterwards and the entries are a permutation of the old ones |
| `CargoLock.Lockfile.Load` | src/lockfile.rs:27-41 | the loaded lockfile keeps the version marker, and its entries are sorted by key and a permutation of the decoded ones |
| `CargoLock.Lockfile.Find` | src/lockfile.rs:43-52 | a returned entry is an element of the lockfile with exactly the manifest's key; on sorted entries, nothing is returned exactly when no entry has that key; it changes nothing |
| `CargoLock.DeserializeVersion` | src/lockfile.rs:66-76 | decoding succeeds exactly for a non-negative value; a warning is logged exactly when the value is not 3 |

## Left out

- Reading the lockfile from disk and decoding TOML: `Lockfile.Load` starts from the decoded entries and version marker.
- JSON decoding of the "third-party" value is the `decode` parameter. Looking the key up in the root's metadata is modelled.
- `PlatformPredicate::parse`, the cfg grammar and the `Display` rendering of a guard are not modelled. A guard is the value `Cfg(p)` or `Cfg(Any(ps))`, standing for the text `cfg(p)` / `cfg(any(...))`.
- `NodeDepKind::target_req()` is not modelled; each kind record carries its result as the field `req`.
- `ManifestTarget::kind_*()` are modelled as membership of the corresponding kind in the target's set of kinds. Any further classification done in the Cargo types module is not part of this model.
- A manifest's `Display` text is passed to `PrivateRuleName` as `shown`, because its formatting code is not part of this model.
- Semantic-version ordering is reduced to (major, minor, patch): pre-release and build metadata are not modelled. A package source compares as text, not by the variants of the source type.
- Logging (`log::error!` for unparseable predicates, `log::warn!` for the lockfile version) has no effect on results. Only the version warning is modelled, as the flag `warned`.
- `all_packages`, `resolved_features` and `PackageMetaError`'s `Display` are trivial pass-throughs and are not modelled.
- Borrowing and lifetimes are not modelled: manifests, ids and names are values. The lazy iterators returned by `resolved_deps` and `resolved_deps_for_target` are modelled as fully computed sequences.
- `CargoLock.SortByKey`: Rust's `sort_by` is also stable. The insertion sort is stable too, but stability is not stated in the contract.
- `MetadataIndex.MergeGuard`: the `any(...)` list is specified by its length and its set of members. The pairing of each member with the declaration it was parsed from is not stated.
- The rename lookup for a root edge uses the edge's own name, as `Index::new` does (`src/index.rs:142`), not a normalised form of it; the model keeps that behaviour.
- `MetadataIndex.ResolvedDepsForTarget`: the result is specified per element through `MergeGuard`'s specification. The exact order inside an `any(...)` depends on hash-set iteration order and is deliberately left open.
