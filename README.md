# AboutLibraries dependency collector, modelled in Dafny

The AboutLibraries Gradle plugin builds licence and attribution reports. To
do this it first gathers the modules a build configuration depends on. This
project models that step: `DependencyCollector.collect` and its helper
`createConfigurations`.

- The build tool has already resolved the configuration.
- `createConfigurations` walks the declared dependencies in an outer loop.
  For each one it walks every resolved artifact in an inner loop. It adds
  each artifact's module identifier to a fresh hash set.
- `collect` sorts that set by the key `group:name:version` and returns it
  as an order-keeping set.

Files:

- `lexicographic.dfy` (module `Lexicographic`): the string order that
  Kotlin's `String.compareTo` uses, and the laws that make it a total order.
- `dependency_collector.dfy` (module `DependencyCollector`) holds the model:
  - the identifiers and the configuration;
  - the nested insertion loop and the hash set's iteration;
  - the sort, `toSet()` and `collect`;
  - the lemmas about the result.
- `library.dfy` (module `Mapping`): the report's `Library` record, copied as
  a plain datatype. It has no operations.

Modelling decisions:

- Gradle's `ModuleVersionIdentifier` becomes `ModuleId(group, name,
  version)`. Java's `equals` for it is not part of this model. The model
  ASSUMES that two identifiers are equal exactly when their group, name and
  version are equal.
- A configuration is its name, its declared dependencies and the identifiers
  of its resolved artifacts (`artifact.moduleVersion.id`, in resolution
  order). The code only counts the declared dependencies; it never inspects
  them.
- The hash set (DependencyCollector.kt:41) is a Dafny `set`. `sortedBy`
  first copies the set into a list, and a hash set has no specified iteration
  order. `HashSetIteration` models that copy: each step takes any element
  not yet listed. So no contract fixes the relative order of identifiers
  whose keys are equal.
- `sortedBy` is a stable sort. It is modelled as a stable insertion sort,
  `SortByKey`. `SortByKeyIsTheStableSort` proves that any key-sorted list
  keeping each key's elements in input order equals `SortByKey` of the
  input. So the model's sort returns exactly what Kotlin's would.
- The returned `Set` is an insertion-ordered set. It is modelled as a
  duplicate-free `seq` in iteration order. `ToSet` returns each element of
  its list once. On a duplicate-free list, which is all `collect` passes
  it, it returns the list unchanged.
- As the code is written, a configuration with no declared dependencies
  gives an empty result, even if artifacts were resolved. This is because
  the artifact loop sits inside the loop over `allDependencies`
  (DependencyCollector.kt:42). The model follows the code.
  `CollectedIds` states it, and `Collect` and `CollectResultSize`
  prove it.

## Model

| member | source | states |
|---|---|---|
| DependencyCollector.Key | plugin/src/main/kotlin/com/mikepenz/aboutlibraries/plugin/DependencyCollector.kt:37 | The sort key is group, `:`, name, `:`, version: its length is the three lengths plus two, with a colon right after the group and right after the name. |
| DependencyCollector.KeyLayout | plugin/src/main/kotlin/com/mikepenz/aboutlibraries/plugin/DependencyCollector.kt:37 | The key splits back into group, name and version at those two colons. |
| Lexicographic.LexLe | plugin/src/main/kotlin/com/mikepenz/aboutlibraries/plugin/DependencyCollector.kt:37 | The order `sortedBy` uses on keys (`compareTo(...) <= 0`). `a` comes no later than `b` exactly when `a` is a prefix of `b`, or `a` has the smaller character at the first position where they differ. |
| DependencyCollector.CreateConfigurations | plugin/src/main/kotlin/com/mikepenz/aboutlibraries/plugin/DependencyCollector.kt:40-50 | The set holds an identifier exactly when some resolved artifact has it and at least one dependency is declared. With no declared dependency the set is empty. |
| DependencyCollector.HashSetIteration | plugin/src/main/kotlin/com/mikepenz/aboutlibraries/plugin/DependencyCollector.kt:41 | Iterating the hash set lists each member exactly once, with no duplicates, in an order that is not fixed. |
| DependencyCollector.InsertByKey | plugin/src/main/kotlin/com/mikepenz/aboutlibraries/plugin/DependencyCollector.kt:37 | Inserting into a key-sorted list keeps it sorted. It adds exactly that one element (multiset). |
| DependencyCollector.SortByKey | plugin/src/main/kotlin/com/mikepenz/aboutlibraries/plugin/DependencyCollector.kt:37 | `sortedBy` returns a list sorted ascending by `group:name:version` that is a permutation of its input: it neither adds nor drops an element. |
| DependencyCollector.SortByKeyStable | plugin/src/main/kotlin/com/mikepenz/aboutlibraries/plugin/DependencyCollector.kt:37 | The sort is stable: for every key, the elements with that key keep their input order. |
| DependencyCollector.StableSortUnique | plugin/src/main/kotlin/com/mikepenz/aboutlibraries/plugin/DependencyCollector.kt:37 | Two key-sorted lists that hold, for every key, the same elements of that key in the same order are identical. |
| DependencyCollector.SortByKeyIsTheStableSort | plugin/src/main/kotlin/com/mikepenz/aboutlibraries/plugin/DependencyCollector.kt:37 | Any key-sorted list that keeps every key's elements in input order is `SortByKey` of the input. So `SortByKey` is Kotlin's stable `sortedBy`, not merely some sort. |
| DependencyCollector.InsertByKeyWithKey | plugin/src/main/kotlin/com/mikepenz/aboutlibraries/plugin/DependencyCollector.kt:37 | One insertion is stable: the inserted element goes ahead of every element with the same key and leaves the order of other keys alone. |
| DependencyCollector.ToSet | plugin/src/main/kotlin/com/mikepenz/aboutlibraries/plugin/DependencyCollector.kt:37 | `toSet()` keeps exactly the list's elements, each once. On a duplicate-free list it returns the list unchanged. |
| DependencyCollector.ToSetKeepsOrder | plugin/src/main/kotlin/com/mikepenz/aboutlibraries/plugin/DependencyCollector.kt:37 | `toSet()` keeps a sorted list sorted. |
| DependencyCollector.Collect | plugin/src/main/kotlin/com/mikepenz/aboutlibraries/plugin/DependencyCollector.kt:35-38 | The result holds an identifier exactly when some resolved artifact has it and at least one dependency is declared. It has no duplicates and is sorted ascending by `group:name:version`. It is empty without declared dependencies. It has at most one entry per resolved artifact, and exactly one per distinct identifier when dependencies exist. |
| DependencyCollector.CollectResultSize | plugin/src/main/kotlin/com/mikepenz/aboutlibraries/plugin/DependencyCollector.kt:41-45 | Any valid result is at most as long as the artifact list. With dependencies declared, its length equals the number of distinct resolved identifiers. With none, it is empty. |
| DependencyCollector.DependencyCountIrrelevant | plugin/src/main/kotlin/com/mikepenz/aboutlibraries/plugin/DependencyCollector.kt:42-47 | One declared dependency or any larger number allows exactly the same results, for any two artifact lists with the same distinct identifiers. Re-adding identifiers changes nothing. |
| DependencyCollector.SortedListingUnique | plugin/src/main/kotlin/com/mikepenz/aboutlibraries/plugin/DependencyCollector.kt:37 | Two key-sorted, duplicate-free listings of the same set are identical when no two members share a key. |
| DependencyCollector.CollectResultDeterministic | plugin/src/main/kotlin/com/mikepenz/aboutlibraries/plugin/DependencyCollector.kt:37 | When the collected identifiers have pairwise distinct keys, the output depends only on their set. Hash set order, artifact order and dependency count do not change it. |
| DependencyCollector.KeysCanTie | plugin/src/main/kotlin/com/mikepenz/aboutlibraries/plugin/DependencyCollector.kt:37 | Two different identifiers can share a key when a component contains `:`. So the key alone does not fix the order. |
| DependencyCollector.CollectExample | plugin/src/main/kotlin/com/mikepenz/aboutlibraries/plugin/DependencyCollector.kt:33-37 | Take artifacts `com.foo:bar:1.0` (twice), `com.bar:baz:2.0` and `com.foo:alpha:1.0`. They can only come out as `com.bar:baz:2.0`, `com.foo:alpha:1.0`, `com.foo:bar:1.0`. |
| Lexicographic.LexLeReflexive | plugin/src/main/kotlin/com/mikepenz/aboutlibraries/plugin/DependencyCollector.kt:37 | The key order is reflexive. |
| Lexicographic.LexLeAntisymmetric | plugin/src/main/kotlin/com/mikepenz/aboutlibraries/plugin/DependencyCollector.kt:37 | Two keys ordered both ways are equal. |
| Lexicographic.LexLeTransitive | plugin/src/main/kotlin/com/mikepenz/aboutlibraries/plugin/DependencyCollector.kt:37 | The key order is transitive. |
| Lexicographic.LexLeTotal | plugin/src/main/kotlin/com/mikepenz/aboutlibraries/plugin/DependencyCollector.kt:37 | Any two keys are comparable, so sorting by key is well defined. |
| Lexicographic.LexLeCommonPrefix | plugin/src/main/kotlin/com/mikepenz/aboutlibraries/plugin/DependencyCollector.kt:37 | A shared prefix, such as a common group, does not change how two keys compare. |

## Left out

- Dependency resolution (`configuration.resolvedConfiguration.resolvedArtifacts`, DependencyCollector.kt:43) belongs to Gradle. Its output is an input of the model. Its failures, which reach the caller unchanged, are not modelled.
- The debug log line and `artifact.file` (DependencyCollector.kt:28, :46) are logging only. They have no effect on the result.
- The declared dependencies carry coordinates in the model, but only their number matters: the code never reads them.
- LexLe: Dafny compares characters by Unicode scalar value. Kotlin compares UTF-16 code units. The two orders agree on the Basic Multilingual Plane. They can differ between a supplementary character and one in U+E000-U+FFFF.
- ToSet: no contract states the order it gives a list that has duplicates. Only the duplicate-free case, the one `collect` uses, is pinned down.
- Collect: the result's order among identifiers with equal keys is left open, because it comes from the hash set's iteration. `CollectResultDeterministic` covers only the case where all keys differ.
- The `Library` data class (mapping/Library.kt) is copied as a datatype without operations. Its equality is Dafny's structural equality of all fields. Kotlin's nullable fields become `Option`.
