# JVM dependency cache, modelled in Dafny

This project models `JvmDependencyCache` from the Pants build tool
(`src/python/twitter/pants/tasks/jvm_dependency_cache.py`). A JVM compile task
uses the cache to find out which targets and jar dependencies each target
really uses. It then checks those against what the target declares.

The cache works in these steps:

- **Class products.** From the compiler's `classes` product it builds
  `targets_by_class`: each class file maps to the targets that produced it.
- **Source references.** It parses each source's class files for external
  class references. The results go into `deps_by_source` (per source) and
  `class_deps_by_target` (per target).
- **Jar contents.** It collects the jar dependencies reachable from the
  targets and looks up their jars in the `jar_dependencies` product. It files
  each jar dependency under every `.class` entry of its jars, which gives
  `jar_targets_by_class`.
- **Resolution.** It resolves every referenced class, first against
  `targets_by_class`, then against `jar_targets_by_class`. This gives the
  computed target dependencies and jar dependencies, which are cached after
  the first call.
- **Blame.** It can explain an inferred edge as a (source, class) pair.
- **Check.** It reports three kinds of dependency:
  - *undeclared*: not reachable through the declared graph;
  - *intransitive*: reachable, but not declared directly;
  - *unnecessary*: declared, but never used.

  The build fails when there are undeclared dependencies, or intransitive ones
  in "error" mode.

The model has five modules:

- `BuildGraph`: the target model the cache reads but never changes. Targets
  and sources are abstract types. The graph gives each target its kind, its
  sources, its declared edges and the set its `walk` visits.
- `MultiMap`: the `defaultdict(set)` operations the cache uses (read with a
  default, add, update, reverse index) on Dafny maps.
- `DependencyIndex`: each index is defined as a function of its inputs. The
  methods running the source's loops are proved to produce exactly that
  function. The resolution and blame properties are proved here too.
- `DependencyCheck`: what the check reports for one target, and when a run
  fails. It also holds the check loop as the source writes it (see
  "## Findings").
- `DependencyCache`: the class `JvmDependencyCache` and the compile task's
  `_computed_jar_products` latch. The class keeps the indexes and the cached
  result as mutable fields. Its invariant `Valid()` states:
  - before the first computation, every index is empty;
  - afterwards, every index except `jars_by_target` equals its defining
    function; `jars_by_target` satisfies `JarsIndexed`, because which
    jar dependency `jardeps_by_id` keeps for a shared coordinate depends on
    iteration order (lines 183-184); the cache holds the resolution of the
    indexes.

Inputs the cache gets from elsewhere are parameters, fixed when the cache is
created:

- the option values;
- the targets and the build graph;
- the `classes` and `jar_dependencies` products;
- the class-file parser, as a function from a class file to its external
  references;
- jar reading, as a function from a jar path to its entry names.

Set and dictionary iteration order is unspecified in the source. The model
iterates with a nondeterministic choice (`:|`), so every result is proved
for every order.

Three behaviours of the code are easy to misread; the model follows the code:

- **Self-dependency.** The resolution loop does not exclude a target from
  its own computed dependencies (`SelfNotExcluded`). The check never reports
  it (`FindingsMeaning`): the undeclared set loses the target because its own
  walk visits it (lines 329 and 368-369), and the intransitive set removes it
  explicitly (line 332).
- **Error handling.** The file has no exception handler: a corrupt class
  file or an unreadable jar raises out of the cache. The model's parser and
  jar reader are total functions, so neither failure arises in the model.
- **Stopping early.** In "error" mode the code as written stops at the
  first target with intransitive dependencies, and the targets after it
  are never examined (see "## Findings").

## Model

| member | source | states |
|---|---|---|
| DependencyCache.CompileTask.InitProductRequirements | src/python/twitter/pants/tasks/jvm_dependency_cache.py:48-56 | the jar-products latch starts open |
| DependencyCache.CompileTask.RequiresJardeps | src/python/twitter/pants/tasks/jvm_dependency_cache.py:93-102 | answers yes exactly when the latch is open and the target is a JVM target, and closes the latch exactly when it answers yes |
| DependencyCache.LatchAnswers | src/python/twitter/pants/tasks/jvm_dependency_cache.py:93-102 | the answers of a run of `_requires_jardeps` calls, one per target asked about |
| DependencyCache.CompileTask.RequiresJardepsEach | src/python/twitter/pants/tasks/jvm_dependency_cache.py:93-102 | successive calls answer exactly `LatchAnswers`, and the latch ends closed iff it started closed or some call answered yes |
| DependencyCache.LatchAnswersFirstJvm | src/python/twitter/pants/tasks/jvm_dependency_cache.py:93-102 | over a run of calls, a call answers yes iff the latch started open, its target is a JVM target and no earlier target was one |
| DependencyCache.AtMostOneJardepsRequest | src/python/twitter/pants/tasks/jvm_dependency_cache.py:93-102 | from an open latch, no two calls both answer yes, so the jar resolver runs at most once per compile |
| DependencyCache.JvmDependencyCache.constructor | src/python/twitter/pants/tasks/jvm_dependency_cache.py:105-150 | records the options and inputs; every index is empty and nothing is cached yet |
| DependencyCache.JvmDependencyCache.WalkJardeps | src/python/twitter/pants/tasks/jvm_dependency_cache.py:161-169 | only appends to the list, and what it appends is the node if it is a jar dependency, plus a JVM target's listed jar dependencies |
| DependencyCache.JvmDependencyCache.GetJardepDependencies | src/python/twitter/pants/tasks/jvm_dependency_cache.py:152-159 | the result is exactly the jar dependencies collected over the target's whole walk |
| DependencyIndex.JardepsReachedAreJars | src/python/twitter/pants/tasks/jvm_dependency_cache.py:161-169 | everything the walk collects is a jar-dependency node, and every jar-dependency node on the walk is collected |
| DependencyCache.JvmDependencyCache.FindJarDependencies | src/python/twitter/pants/tasks/jvm_dependency_cache.py:177-181 | `found_jar_deps` is the union of the targets' collected jar dependencies, all of them jar-dependency nodes |
| DependencyIndex.JardepsById | src/python/twitter/pants/tasks/jvm_dependency_cache.py:182-184 | the keys are exactly the coordinates of the found jar dependencies, and each maps to a found jar dependency with that coordinate |
| DependencyIndex.JarsForKey | src/python/twitter/pants/tasks/jvm_dependency_cache.py:201-204 | the jar set is exactly (directory, file) for every file listed under every directory of the product entry |
| DependencyIndex.IndexJarProducts | src/python/twitter/pants/tasks/jvm_dependency_cache.py:197-205 | every key of `jars_by_target` is a found jar dependency whose coordinate is a product key, and maps to that key's jars; every such coordinate gets exactly one key |
| DependencyIndex.IndexClassEntries | src/python/twitter/pants/tasks/jvm_dependency_cache.py:209-211 | files the jar dependency under exactly the `.class` entries of one jar, adding to the index |
| DependencyIndex.IndexJarEntries | src/python/twitter/pants/tasks/jvm_dependency_cache.py:207-211 | files the jar dependency under exactly the `.class` entries of all its jars, adding to the index |
| DependencyIndex.IndexJarContents | src/python/twitter/pants/tasks/jvm_dependency_cache.py:206-211 | `jar_targets_by_class` is exactly the reverse index of each jar dependency's `.class` entries |
| DependencyIndex.JarIndexEntries | src/python/twitter/pants/tasks/jvm_dependency_cache.py:206-211 | every key of `jar_targets_by_class` ends in `.class` and is an entry of some jar of each jar dependency filed under it |
| DependencyCache.JvmDependencyCache.ComputeJarContents | src/python/twitter/pants/tasks/jvm_dependency_cache.py:171-211 | fills `jars_by_target` and `jar_targets_by_class` as stated above, and changes no other index |
| DependencyIndex.IndexClassList | src/python/twitter/pants/tasks/jvm_dependency_cache.py:231-232 | files the target under exactly the classes listed in one output directory, adding to the index |
| DependencyIndex.IndexProducedClasses | src/python/twitter/pants/tasks/jvm_dependency_cache.py:230-232 | files the target under exactly the classes listed in any of its output directories, adding to the index |
| DependencyIndex.TargetsByClassStep | src/python/twitter/pants/tasks/jvm_dependency_cache.py:221-232 | one target's turn adds that target under each class it produced, and a target without products adds nothing |
| DependencyIndex.ProducersIndexed | src/python/twitter/pants/tasks/jvm_dependency_cache.py:221-232 | a target is filed under a class iff it is one of the targets, it has products and it produced that class |
| DependencyIndex.ProducersNonEmpty | src/python/twitter/pants/tasks/jvm_dependency_cache.py:221-232 | every key of `targets_by_class` has at least one producer, and every producer is one of the analysed targets |
| DependencyIndex.AbsentTargetAddsNothing | src/python/twitter/pants/tasks/jvm_dependency_cache.py:224-228 | a target missing from the class products changes none of the three source-side indexes |
| DependencyIndex.SourceFileDeps | src/python/twitter/pants/tasks/jvm_dependency_cache.py:238-252 | a source's dependencies are `<ref>.class` for every external reference of every class file it produced, and each ends in `.class` |
| DependencyIndex.SourceDepsAreClassFiles | src/python/twitter/pants/tasks/jvm_dependency_cache.py:246-250 | each dependency of a source ends in `.class` and is a reference of one of its class files with `.class` appended |
| DependencyIndex.IndexSources | src/python/twitter/pants/tasks/jvm_dependency_cache.py:237-254 | records each source's dependencies under the source, and adds all of them to the target's referenced classes |
| DependencyIndex.ClassDepsIsUnionOfSources | src/python/twitter/pants/tasks/jvm_dependency_cache.py:237-254 | a target's referenced classes are exactly the union of `deps_by_source` over its sources, each of which is recorded |
| DependencyCache.JvmDependencyCache.ComputeSourceDeps | src/python/twitter/pants/tasks/jvm_dependency_cache.py:213-254 | fills `targets_by_class`, `deps_by_source` and `class_deps_by_target` with exactly their defining values, and changes nothing else |
| DependencyIndex.ResolveClasses | src/python/twitter/pants/tasks/jvm_dependency_cache.py:281-286 | after one target's classes: its dependencies gain the producers of its produced classes; its jar dependencies gain the providers of the classes no target produced; it gets an entry only if some class resolves |
| DependencyIndex.ResolveStep | src/python/twitter/pants/tasks/jvm_dependency_cache.py:280-286 | resolving one more target extends both results by that target's entry alone |
| DependencyIndex.ResolveAll | src/python/twitter/pants/tasks/jvm_dependency_cache.py:278-287 | the loop over all targets yields exactly the resolution of the indexes |
| DependencyIndex.ResolvedExactly | src/python/twitter/pants/tasks/jvm_dependency_cache.py:280-286 | x is a computed dependency of t iff some class t references is produced by x; x is a computed jar dependency of t iff some class t references is not produced by any target and is in a jar of x |
| DependencyIndex.TargetProvidersTakePrecedence | src/python/twitter/pants/tasks/jvm_dependency_cache.py:283-286 | jar entries for classes some target produced never affect the result (the `elif`) |
| DependencyIndex.UnresolvedClassIgnored | src/python/twitter/pants/tasks/jvm_dependency_cache.py:282-286 | a class in neither index can be dropped from a target's references without changing either result |
| DependencyIndex.SelfNotExcluded | src/python/twitter/pants/tasks/jvm_dependency_cache.py:280-284 | a target referencing a class it produced itself appears among its own computed dependencies |
| DependencyCache.JvmDependencyCache.GetCompilationDependencies | src/python/twitter/pants/tasks/jvm_dependency_cache.py:256-287 | returns the resolution of the filled indexes and caches it; once cached, later calls return the cached pair and change nothing |
| DependencyCache.JvmDependencyCache.GetDependencyBlame | src/python/twitter/pants/tasks/jvm_dependency_cache.py:289-309 | returns None iff none of the from-target's sources references a class the to-target produced; otherwise the pair justifies the edge and comes from the first such source |
| DependencyIndex.ComputedDepIsBlamable | src/python/twitter/pants/tasks/jvm_dependency_cache.py:289-309 | every computed dependency edge has a justification in one of the dependent target's sources |
| DependencyCache.JvmDependencyCache.ComputedDepsBlamable | src/python/twitter/pants/tasks/jvm_dependency_cache.py:337-341 | once cached, every computed dependency of every target is blamable on one of its sources |
| DependencyCache.JvmDependencyCache.DependencyWalkWork | src/python/twitter/pants/tasks/jvm_dependency_cache.py:367-373 | removes the visited node from the undeclared dependencies and, for a JVM target, its dependencies from the undeclared jar dependencies |
| DependencyCache.JvmDependencyCache.WalkUndeclared | src/python/twitter/pants/tasks/jvm_dependency_cache.py:325-329 | after the walk, the undeclared dependencies are the computed ones the walk misses, and the undeclared jar dependencies are those no JVM target on the walk lists |
| DependencyCache.JvmDependencyCache.BlameUndeclared | src/python/twitter/pants/tasks/jvm_dependency_cache.py:337-342 | blames every undeclared dependency as `get_dependency_blame` does (a justifying class from the first source that blames it, or None when no source does), and discards exactly the undeclared ones from the immediate missing dependencies |
| DependencyCache.JvmDependencyCache.CheckTarget | src/python/twitter/pants/tasks/jvm_dependency_cache.py:321-361 | one target's findings are `FindingsFor` its computed dependencies; it sets the failure flag iff the target fails in the configured mode |
| DependencyCheck.FindingsMeaning | src/python/twitter/pants/tasks/jvm_dependency_cache.py:327-358 | undeclared iff computed and off the walk; intransitive iff the intransitive check is not "none" and the dependency is computed, on the walk, not a direct dependency and not the target; never both; the target itself never reported; unnecessary never computed, and empty when that check is off |
| DependencyCheck.DirectDependencyAccepted | src/python/twitter/pants/tasks/jvm_dependency_cache.py:329-332 | a directly declared dependency is reported neither as undeclared nor as intransitive |
| DependencyCheck.TransitiveSuppression | src/python/twitter/pants/tasks/jvm_dependency_cache.py:329-332 | a dependency declared by a declared dependency but not directly is not undeclared, and is intransitive iff the intransitive check is not "none" |
| DependencyCheck.WarningsNeverFail | src/python/twitter/pants/tasks/jvm_dependency_cache.py:348-364 | in "warn" mode a target fails exactly as in "none" mode, i.e. only for undeclared dependencies |
| DependencyCache.JvmDependencyCache.CheckTargets | src/python/twitter/pants/tasks/jvm_dependency_cache.py:319-361 | every target with computed dependencies is reported with its findings and blames, and the flag is set iff some target fails |
| DependencyCache.JvmDependencyCache.CheckUndeclaredDependencies | src/python/twitter/pants/tasks/jvm_dependency_cache.py:311-364 | nothing when the check is off; otherwise the outcome is the missing-dependencies error iff some target fails, and every undeclared dependency carries a (source, class) blame |
| DependencyCheck.AsWrittenCheck | src/python/twitter/pants/tasks/jvm_dependency_cache.py:321-364 | the loop as written: a fault happens only in "error" mode at a target with intransitive dependencies; otherwise it finishes with the flag set iff some target has undeclared dependencies |
| DependencyCheck.AsWrittenFaultsAtFirstIntransitive | src/python/twitter/pants/tasks/jvm_dependency_cache.py:348-354 | as written, in "error" mode the loop faults at the first target with intransitive dependencies |
| DependencyCheck.AsWrittenOtherwiseAgrees | src/python/twitter/pants/tasks/jvm_dependency_cache.py:321-364 | as written, when no target reaches that branch, the loop fails exactly when some target fails |
| MultiMap.InvertMembership | src/python/twitter/pants/tasks/jvm_dependency_cache.py:230-232 | a key is filed under a value of the reverse index iff the value is stored under the key |
| MultiMap.InvertAdd | src/python/twitter/pants/tasks/jvm_dependency_cache.py:230-232 | giving one more key its values adds that key under each value of the reverse index |

## Left out

- `setup_parser` (lines 61-90) only registers command-line options. The option values are constructor parameters.
- `init_product_requirements` also registers the `classes` and `jar_dependencies` products (lines 57-59). The product registry is not part of this model; only the latch it resets is.
- The product registry itself (`context.products`) is left out. The `missing_deps` entries it records at lines 335-336 and 350-354 appear as the returned report instead. The report's `intransitive` set stands for both the printed messages (modes "warn" and "error") and the recorded entry (mode "error"); it is empty in mode "none", where the source does neither.
- The printed messages (lines 338-341, 355-356, 360-361) are left out. Their contents are the report's findings and blames.
- `TaskError` is the `MissingDependencies` outcome rather than an exception.
- Class-file parsing (`ClassFile.from_file`, `get_external_class_references`) is a function parameter. A corrupt class file raises in the source with no handler; the model does not represent it.
- Reading jars with `ZipFile` is a function parameter. An unreadable jar raises in the source with no handler; the model does not represent it.
- `os.path.join` is a (directory, file) pair.
- `target.walk` is given as the set of nodes it visits, not as an ordered traversal. Both walk callbacks give the same result in any visiting order: one only appends and the result becomes a set, the other only removes.
- Reading a missing key of a `defaultdict` inserts an empty set: `deps_by_source` at line 305 and `computed_jar_deps` at line 323. The model reads with a default and does not insert, so those empty entries are not in the model's state.
- The `classes` product is one map keyed by both targets (line 224) and sources (line 241). The model splits it into two maps, `byTarget` and `bySource`. A source missing from the product is read as having no class files (`ClassFilesOf`), which assumes the registry reads a missing key of `by_target` as empty; line 241 indexes it without a membership test.
- The addresses written to `missing_deps` (`derived_from.address.reference()`) are not modelled; the report holds the targets themselves.
- DependencyCache.JvmDependencyCache.WalkJardeps: states that the list only grows, and states the set of what it appends, not its order. `_get_jardep_dependencies` turns the list into a set, so order does not matter.
- DependencyCache.JvmDependencyCache.CheckUndeclaredDependencies: models the intended reading of line 353 (see "## Findings"), as do `DependencyCache.JvmDependencyCache.CheckTarget` and `DependencyCache.JvmDependencyCache.CheckTargets`, which it calls. The code as written is modelled separately by `DependencyCheck.AsWrittenCheck`.

## Findings

| source | as written | input that shows it | evidently intended | confidence | as-written member | corrected member |
|---|---|---|---|---|---|---|
| src/python/twitter/pants/tasks/jvm_dependency_cache.py:351-354 | in "error" intransitive mode the branch sets `found_missing_deps` and then reads `self.context._buildroot`. The cache has no `context` attribute, so an attribute error ends the check at the first such target: no `TaskError`, and later targets are never examined | `check_missing_deps` on, intransitive mode "error", target A declares B, B declares C, and a source of A references a class produced by C | `self.task.context._buildroot`, as on line 336: record the entry, examine every target, then raise the missing-dependencies error | not executed | DependencyCheck.AsWrittenFaultsAtFirstIntransitive | DependencyCache.JvmDependencyCache.CheckUndeclaredDependencies |
