# Blade Java dependency engine and configuration sections, in Dafny

This project models two parts of the Blade build system.

**The Java dependency engine** (`src/blade/java_targets.py`). Java targets are
`java_library`, `prebuilt_java_library`, `java_binary`, `java_test`,
`java_fat_library` and `maven_jar`. They live in a target database keyed by
`(path, name)`. Declaring a target fills its `deps` and `expanded_deps`.
Along the way, every Maven id `group:artifact:version` becomes an implicit
`maven_jar` target under key `('#', name)`, registered at most once. Three
classpath queries then read the database:

- the compile classpath: direct deps plus one hop of `exported_deps`;
- the test classpath: a flat walk over `expanded_deps`;
- the packaging classpath: a recursive closure that drops `provided_deps`
  from the direct deps and subtracts `exclusions`.

Jar files from a local Maven repository (`.m2/repository/<group dirs>/<artifact>/<version>/<file>`)
go through a version-conflict resolver. It keeps one version per
`(group, artifact)`: a version that is a direct Maven dependency wins,
otherwise the greatest under Python's string `>`. One-jars and fat jars list
the target's own build variable first, then the packaged build variables in
sorted order.

**The configuration sections** (`src/blade/config.py`). `BladeConfig` holds
sections of typed items, starting from built-in defaults. A section call in a
configuration file, such as `cc_config(append=..., **kwargs)`, works in two
steps:

1. It extends list-valued items with the `append` items.
2. It replaces known items with the keyword items. Each value is coerced to a
   list or a set when the default is one. Unknown item names are dropped with
   a warning.

`cc_config` and `proto_library_config` rewrite their keywords first.
`_check_kwarg_enum_value` reports values outside a list of valid ones.

Modules:

- `wrappers.dfy`: `Option`.
- `strings.dfy`: Python's code-point string order; sorting with deduplication
  (`sorted(set(...))`); `str.find`; `str.split(sep)` and `str.split()`.
- `targets.dfy`: keys, kinds, the target record and the target database.
- `classify.dfy`: `_filter_deps` and `_collect_maven_dep_ids`.
- `factory.dfy`: the `JavaTarget` class with `_add_maven_dep`,
  `_add_hardcode_java_library`, `_unify_java_deps`, `_set_pack_exclusions` and
  the constructors of every Java target kind.
- `resolver.dfy`: Maven path parsing and `_detect_maven_conflicted_deps`.
- `expander.dfy`: `__extract_dep_jars`, `__get_deps`, `__get_exported_deps`,
  `__get_maven_transitive_deps` and the compile, test and packaging
  classpaths, including `_get_java_pack_deps` on both target kinds.
- `planner.dfy`: what the one-jar of `java_binary`/`java_test` and the fat jar
  of `java_fat_library` are built from.
- `config.dfy`: the `BladeConfig` class and the keyword rewriting.

The foreign helpers `maven.is_valid_id`, `Target._unify_dep`,
`blade_util.regular_variable_name`, `Target._source_file_path` and
`blade_util.var_to_list` are function-typed parameters. Every property holds
for any such functions.

The packaging closure is specified by a ghost function `PackSets`, which
recurses down a rank that decreases along dependencies. The methods that
compute it iterate Python sets in an arbitrary order (`:|`), so their
contracts hold for every iteration order.

Python's falsy `data` entries (missing, `None` or empty) are `""` for strings
and `[]` for lists.

## Model

| member | source | states |
|---|---|---|
| Strings.LexTotal | src/blade/java_targets.py:191 | The string order used for `version > old_version` is total: two different strings are ordered one way or the other. |
| Strings.LexTransitive | src/blade/java_targets.py:191 | The version order is transitive, so the greatest version seen so far stays the greatest. |
| Strings.NineSortsAfterTen | src/blade/java_targets.py:191 | Under Python's string comparison "1.9" is greater than "1.10". |
| Strings.SortDedup | src/blade/java_targets.py:212 | `sorted(list(set(xs)))` is strictly sorted and holds exactly the elements of `xs`. |
| Strings.SortedList | src/blade/java_targets.py:248 | Sorting a set gives a strictly sorted list with exactly the set's elements. |
| Strings.SortedUnique | src/blade/java_targets.py:206 | Two strictly sorted lists with the same elements are equal, so a sorted result is fixed by its set. |
| Strings.Find | src/blade/java_targets.py:179 | `str.find` gives the first position where the pattern occurs, and none exactly when it does not occur. |
| Strings.SplitJoin | src/blade/java_targets.py:179 | `split('/')` undoes joining separator-free parts. |
| Strings.Split | src/blade/java_targets.py:179 | `split('/')` gives at least one part, no part holds the separator, and joining the parts gives back the input. |
| Strings.SplitWords | src/blade/config.py:435 | `str.split()` gives non-empty whitespace-free words whose concatenation is the input without whitespace. Where the words break is fixed by `SplitWordsRuns`. |
| Strings.SplitWordsRuns | src/blade/config.py:435 | `str.split()` breaks exactly at whitespace runs. An all-whitespace string gives no words. Leading whitespace of any kind and length is dropped. A lone word gives itself. A word ended by any whitespace run comes first, followed by the split of the rest. Together these fix the split of every string. |
| Strings.SplitWordsJoin | src/blade/config.py:498 | `str.split()` undoes joining words with single spaces. |
| Strings.ReplaceChar | src/blade/java_targets.py:68 | `replace(':', '_')` changes exactly the colons, leaving no colon behind. |
| Classify.FilterDeps | src/blade/java_targets.py:87-95 | The two outputs partition the input as a multiset. Each keeps input order. The second is exactly the specifiers `is_valid_id` accepts. |
| Classify.SelectPartition | src/blade/java_targets.py:87-95 | The target references and the Maven ids together are a permutation of the input. |
| Classify.SelectSound | src/blade/java_targets.py:90-94 | Every element of either output comes from the input and is classified correctly. |
| Classify.CollectMavenDepIds | src/blade/java_targets.py:77-85 | An id is collected iff some direct dep is a `maven_jar` with that non-empty id. |
| Targets.ImplicitMavenJar | src/blade/java_targets.py:27-35 | An implicit Maven jar has kind `maven_jar`, the given id, no deps and no jar yet. |
| Targets.TargetDatabase.Register | src/blade/java_targets.py:72 | Registering sets the key's entry and changes no other. |
| Factory.MavenDepKey | src/blade/java_targets.py:68-69 | The implicit key has path "#" and a name without ':'. |
| Factory.EnsureMavenJarFacts | src/blade/java_targets.py:69-72 | Afterwards the key is registered. A present key leaves the database unchanged. An absent key gets a fresh `maven_jar`. Other entries are kept. |
| Factory.RegisterMavenIdsFacts | src/blade/java_targets.py:67-75 | Registering a list of ids adds exactly their keys and keeps every existing entry. |
| Factory.RegisterMavenIdsPresent | src/blade/java_targets.py:70 | Ids whose keys are all registered add no entry. |
| Factory.RegisterMavenIdsIdempotent | src/blade/java_targets.py:67-75 | Registering the same ids twice equals registering them once. |
| Factory.JavaTarget.AddMavenDep | src/blade/java_targets.py:67-75 | Returns `('#', name)`. Registers a `maven_jar` only when the key is absent. Appends the key to both `deps` and `expanded_deps`, even when already there. Keeps `expanded_deps` a superset of `deps`. |
| Factory.JavaTarget.AddHardcodeJavaLibrary | src/blade/java_targets.py:55-65 | Both lists become `HardcodeDeps` of their old value. The database gains the Maven ids' jars. `expanded_deps` stays a superset of `deps`. |
| Factory.HardcodeDepsElems | src/blade/java_targets.py:55-65 | Afterwards a list holds its old keys plus exactly the specifiers' keys. |
| Factory.HardcodeDepsNoDuplicate | src/blade/java_targets.py:62-65 | A non-Maven key listed at most once is still listed at most once. |
| Factory.HardcodeKeepsExpansion | src/blade/java_targets.py:55-65 | If `expanded_deps` covers `deps` before the call, it still does after. |
| Factory.JavaTarget.UnifyJavaDeps | src/blade/java_targets.py:97-106 | Returns one key per specifier in order. Appends each Maven id's key to both lists and registers its jar. `expanded_deps` stays a superset of `deps`. |
| Factory.JavaTarget.SetPackExclusions | src/blade/java_targets.py:108-114 | `exclusions` becomes the unified keys of the specifiers, in order. |
| Factory.JavaTarget.InitJavaTarget | src/blade/java_targets.py:397-413 | `deps` holds the unified target references, then one key per Maven id. `expanded_deps` equals `deps`. Every Maven id's jar is registered. |
| Factory.JavaTarget.Library | src/blade/java_targets.py:448-463 | Kind depends on `prebuilt`. Exported and provided keys are unified. Both are contained in `deps`. A prebuilt library's `binary_jar` is the source path of the given jar. |
| Factory.JavaTarget.InitLibraryDeps | src/blade/java_targets.py:453-459 | Plain, exported and provided specifiers all go into `deps`. The exported and provided key lists are contained in `deps`. |
| Factory.LibraryDepsCover | src/blade/java_targets.py:455-459 | The keys of the exported and provided specifiers are among the library's `deps`. |
| Factory.SpecKeysListed | src/blade/java_targets.py:455 | Any sublist of the specifiers has its keys among the `deps` built from all of them. |
| Factory.JavaTarget.Binary | src/blade/java_targets.py:473-480 | A `java_binary` has the given main class and no exported or provided deps. Its exclusions are set only when some are given. |
| Factory.JavaTarget.Test | src/blade/java_targets.py:512-518 | A `java_test` is a binary with no exclusions and kind `java_test`. |
| Factory.JavaTarget.FatLibrary | src/blade/java_targets.py:536-541 | A `java_fat_library` has its exclusions set only when some are given. |
| Resolver.ParseRepoPath | src/blade/java_targets.py:175-183 | A path without `.m2/repository/` has no coordinate. |
| Resolver.ParseRepoLayout | src/blade/java_targets.py:179-183 | For `<prefix>.m2/repository/<g1>/…/<gn>/<artifact>/<version>/<file>`, where the first `.m2/repository/` is the one after the prefix, parsing gives back group `g1.….gn`, artifact, version and file. |
| Resolver.DottedPrefixParses | src/blade/java_targets.py:177-183 | A repository under a directory with a '.' in its name parses like any other. |
| Resolver.DetectMavenConflictedDeps | src/blade/java_targets.py:165-206 | The result is strictly sorted and contained in the input. Non-repository paths are kept. One path is kept per `(group, artifact)`. A sole direct version wins. When some version is direct, the kept version is direct too. Without a direct version, a greatest version wins. |
| Resolver.TrackedSkip | src/blade/java_targets.py:177-181 | Skipping an unparsable path keeps the loop invariant. |
| Resolver.TrackedFirst | src/blade/java_targets.py:202-203 | The first path of an artifact enters the table and keeps the invariant. |
| Resolver.TrackedKeep | src/blade/java_targets.py:188-190 | When the recorded version is direct, the new path is dropped and the invariant kept, including that a direct version, once seen, stays recorded. |
| Resolver.TrackedReplace | src/blade/java_targets.py:191-193 | A direct or greater new version replaces the recorded one, whose path is dropped. |
| Resolver.TrackedDone | src/blade/java_targets.py:205-206 | After the loop, `dep_jars - conflicted_jars` has all five resolver properties. |
| Resolver.NineBeatsTen | src/blade/java_targets.py:191 | With no direct version, "1.9" survives over "1.10". |
| Resolver.NineBeatsTenInRepo | src/blade/java_targets.py:182-195 | The same for two concrete repository paths of one artifact. |
| Expander.ExtractDepJars | src/blade/java_targets.py:120-128 | A dep with a `jar_var` adds it. Otherwise a `binary_jar`, if any, is added. |
| Expander.JarVarShadowsBinaryJar | src/blade/java_targets.py:123-128 | Deps that all have a `jar_var` add no jar file and one build variable each. |
| Expander.GetDeps | src/blade/java_targets.py:130-138 | The build variables and jar files are exactly those of the given deps. |
| Expander.DepJarsFromElems | src/blade/java_targets.py:136-137 | The accumulated lists gain exactly the deps' build variables and jar files. |
| Expander.GetExportedDeps | src/blade/java_targets.py:140-151 | The result is exactly the build variables and jar files of the deps' `exported_deps`, one hop. |
| Expander.ExportedFromElems | src/blade/java_targets.py:146-150 | The exported walk gathers exactly the exported targets' build variables and jar files. |
| Expander.GetMavenTransitiveDeps | src/blade/java_targets.py:153-163 | Concatenates the `maven_deps` of the `maven_jar` deps, and of nothing else. |
| Expander.MavenTransitiveElems | src/blade/java_targets.py:159-162 | The concatenation holds exactly the Maven deps' `maven_deps`. |
| Expander.GetCompileDeps | src/blade/java_targets.py:208-214 | Build variables are the sorted union of direct and exported ones. Jars are the resolution of direct, Maven-transitive and exported jars. |
| Expander.GetTestDeps | src/blade/java_targets.py:216-221 | Build variables are the sorted ones of `expanded_deps` (no exported hop). Jars are the resolution of their jar files and Maven-transitive jars. |
| Expander.DiscardAll | src/blade/java_targets.py:229-230 | Discarding each listed element removes exactly those elements. |
| Expander.GetJavaPackDeps | src/blade/java_targets.py:429-430 | A `maven_jar` gives no build variable and its `maven_deps` (lines 37-39). Any other target gives its packaging classpath. |
| Expander.GetPackDeps | src/blade/java_targets.py:223-248 | Both lists are strictly sorted and equal to the packaging closure. No excluded target's build variable or jar file remains. |
| Expander.PackExcludes | src/blade/java_targets.py:240-246 | The closure contains no excluded target's `jar_var`, nor the `binary_jar` of one without a `jar_var`. |
| Expander.PackedDirect | src/blade/java_targets.py:231 | A packed direct dep's build variable is packaged unless an exclusion has the same one. |
| Expander.PackedNested | src/blade/java_targets.py:233-237 | What a packed dep packs is packaged, minus the exclusions. |
| Expander.ProvidedReachableIsPacked | src/blade/java_targets.py:227-237 | A provided dep that is also a dep of a packed dep is still packaged, unless an exclusion of either target has the same build variable. |
| Expander.PackIgnoresProvided | src/blade/java_targets.py:227-230 | The closure only depends on `deps` minus `provided_deps`. |
| Expander.PackFrame | src/blade/java_targets.py:233-237 | Changing a target's deps does not change what lower-ranked targets pack. |
| Planner.JarSources | src/blade/java_targets.py:492-497 | The own `jar_var`, if any, comes first, followed by the dep build variables unchanged. |
| Planner.JarSourcesDistinct | src/blade/java_targets.py:494-497 | A sorted list with the own variable in front repeats nothing when it did not hold that variable. |
| Planner.HigherVarNotPacked | src/blade/java_targets.py:233-237 | With unique build variables, no target ranked at or above `j` has its variable in `j`'s closure. |
| Planner.OwnVarNotPacked | src/blade/java_targets.py:494-497 | A target's own build variable is not in its packaging closure. |
| Planner.NoEmptyPackVar | src/blade/java_targets.py:122-124 | An empty build variable is never packaged. |
| Planner.PackagedJar | src/blade/java_targets.py:482-487 | One-jar and fat jar sources: own variable first, then the sorted closure. Nothing repeats when variables are unique. Jars are the resolved closure. |
| Planner.TestJar | src/blade/java_targets.py:520-525 | The test one-jar: own variable first, then the test classpath's variables. Jars are the resolved test jars. |
| Config.CoerceShape | src/blade/config.py:302-307 | List defaults take a list. Set defaults take a set with the same elements. They fail exactly on what `set()` rejects: a value that is not a string, set or list, or a list holding a list or a set. Other defaults take the value as given. |
| Config.AppendedKeys | src/blade/config.py:288-297 | Appending never adds an item to a section. |
| Config.AppendedShape | src/blade/config.py:288-297 | A list item given in `append` keeps its old contents as a prefix and gains `var_to_list(value)`. Every other item is unchanged. |
| Config.ReplacedShape | src/blade/config.py:299-313 | Succeeds unless a set default meets a value `set()` rejects (not iterable, or a list with an unhashable item). Keys are unchanged. Each supplied known item holds its coerced value. Others are unchanged. |
| Config.UpdateKeepsNames | src/blade/config.py:274-313 | An update adds no section and no item. Every other section is unchanged. |
| Config.AppendThenReplace | src/blade/config.py:278-280 | Append does not affect whether replace succeeds. An item given in both ends with the replaced value. |
| Config.AppendNothing | src/blade/config.py:278 | An empty `append` changes nothing. |
| Config.Words | src/blade/config.py:498 | The split gives a list of non-empty whitespace-free strings. |
| Config.WordsJoin | src/blade/config.py:497-498 | Splitting space-joined words gives back those words as strings. |
| Config.CcKwargs | src/blade/config.py:431-435 | A space-containing string `extra_incs` becomes its word list. Every other keyword, and all keywords otherwise, are unchanged. |
| Config.ProtoKwargs | src/blade/config.py:492-500 | A truthy `protobuf_include_path` is removed. `protobuf_incs` becomes its word list, or `[path]`. Otherwise nothing changes. |
| Config.ProtoIncludePathRenamed | src/blade/config.py:489-502 | After `proto_library_config`, the section has no `protobuf_include_path`, and `protobuf_incs` holds the rewritten list. |
| Config.BladeConfig.GetSection | src/blade/config.py:315-317 | Gives the section exactly when its name is known. |
| Config.BladeConfig.GetItem | src/blade/config.py:367-368 | Gives the item exactly when the section and the item exist. |
| Config.BladeConfig.CheckKwargEnumValue | src/blade/config.py:371-375 | Logs one error iff the value is present, not `None`, and not among the valid ones. Otherwise it logs nothing. |
| Config.BladeConfig.AppendConfig | src/blade/config.py:284-297 | The section becomes `Appended`. The new log entries are, as a multiset, exactly one warning per non-list or unknown item. |
| Config.BladeConfig.ReplaceConfig | src/blade/config.py:299-313 | Success iff every value can be coerced, a list with an unhashable item failing for a set item. On success the section becomes `Replaced`, and the new log entries are exactly one warning per unknown item. On failure no section changes. |
| Config.BladeConfig.UpdateConfig | src/blade/config.py:274-282 | An unknown or empty section logs one error and changes nothing. Otherwise append then replace. On success the append warnings are logged first and the replace warnings after them, each once, so a name unknown to both is reported twice. |
| Config.BladeConfig.AppendThenReplaceConfig | src/blade/config.py:278-280 | The section state after the two steps. On success the append warnings are logged first, then the replace warnings. |
| Config.BladeConfig.AppendIfGiven | src/blade/config.py:278-279 | An empty `append` is skipped. Otherwise the section becomes `Appended` and the append warnings are logged. |
| Config.BladeConfig.CcConfig | src/blade/config.py:428-436 | First an error for an invalid `hdr_dep_missing_severity`, then the warning that a space-separated `extra_incs` became a list. Then the rewritten keywords update `cc_config`, logging the append warnings and then the replace warnings, as `update_config` does. |
| Config.BladeConfig.ProtoLibraryConfig | src/blade/config.py:489-502 | First the warning that a truthy `protobuf_include_path` was renamed. Then the rewritten keywords update `proto_library_config`, logging the append warnings and then the replace warnings, as `update_config` does. |
| Config.AppendItems | src/blade/config.py:288-297 | The append loop computes `Appended`. Its warnings are, as a multiset, exactly one per non-list or unknown item. |
| Config.CoerceItems | src/blade/config.py:302-310 | The replace loop succeeds iff all values coerce. Its coerced values give `Replaced`. Its warnings are, as a multiset, exactly one per unknown item. |
| Config.DropUnknown | src/blade/config.py:311-312 | Deleting the unknown keys leaves the user items minus exactly those keys. |
| Config.MergeCoerced | src/blade/config.py:311-313 | `section.update` of the coerced known items equals `Replaced`. |

## Left out

- Rule-text generation is not part of this model: `_generate_*`, `_write_rule`, wrappers and the backend's string formatting. What a one-jar or fat jar is built from is modelled; its text is not.
- `_get_java_package_name` and `_java_sources_paths` read files.
- `MavenJar.scons_rules` looks jars up in the Maven cache. `binary_jar` and `maven_deps` are given fields of a `maven_jar` target.
- `maven.is_valid_id`, `Target._unify_dep`, `blade_util.regular_variable_name`, `blade_util.var_to_list` (used by `append_config`) and `Target._source_file_path` are parameters. `target.py`, `maven.py` and `blade_util.py` are not part of this model.
- `blade.blade.register_target` is an insertion into the target database.
- The Java rule arguments (`deps`, `exported_deps`, `provided_deps`, `exclusions`) are taken as lists of specifiers. The `var_to_list` that turns a single string into a one-element list (java_targets.py:109, 397-399 and 453-455) is not modelled.
- `Target.__init__` is not part of this model. `InitDeps` assumes it unifies each target reference and keeps the first occurrence of a duplicate, with `expanded_deps` starting equal to `deps`.
- Console output is not modelled: warnings and errors are an appended diagnostics sequence without message text.
- Strings are Python 3 `str` values. `Strings.IsSpace` is the whitespace set of Python 3's `str.split()`; under Python 2 a byte string splits on ASCII whitespace only, which is not modelled.
- The `binary_jar` default `name + '.jar'` (java_targets.py:461-462) is overwritten on the next line, so it is not modelled.
- Expander.GetPackDeps: the code has no cycle detection and recurses without end on a cycle (java_targets.py:233-237). The model requires a rank that decreases along dependencies, so a cyclic graph is outside it, and there is no cycle error.
- Expander.GetPackDeps: every dependency and every exclusion must be registered. The code looks exclusions up at java_targets.py:242 (through `__get_deps`, line 121). An exclusion naming a target that was never loaded raises `KeyError` there, and the model does not cover that error path.
- Expander.GetPackDeps: provided deps are removed only from the direct deps (java_targets.py:227-230). Expander.ProvidedReachableIsPacked proves such a dep is still packaged when another dep reaches it and no exclusion of the two targets shares its build variable.
- Expander.PackExcludes: an exclusion removes the excluded target's own build variable or jar file, not what it depends on, matching the code. Exclusions need not be among `deps`.
- Resolver.DetectMavenConflictedDeps: the code's result depends on set iteration order when two present versions are both direct, or two paths share group, artifact and version. The contract states the properties every order guarantees, not one result: with two direct versions, one of them survives, but which one is not fixed.
- Config.BladeConfig.ReplaceConfig: when `set(value)` raises for a non-iterable value, the model reports failure and changes no section. The exception, and the partial mutation of `user_config` before it, are not modelled. On failure the contract only says the log is extended.
- Config.BladeConfig.ReplaceConfig: the unknown-item warnings are logged after the coercion loop rather than interleaved with it. Keyword dicts are maps with no order, so the contracts state which warnings are logged and how many times each, but not their order within one step.
- Config.BladeConfig.AppendConfig: an `append` that is not a dict is not modelled ("Append must be a dict"). Dict-valued items are not modelled either: values are strings, integers, booleans, `None`, lists and sets.
- Config.BladeConfig.GetSection: the code returns the section dict itself, so callers can alias and mutate it. The model returns a value, and a missing name gives `None` where the code raises `KeyError`.
- Config.CoerceShape: Python's set equality treats `1`, `1.0` and `True` as one element. The model keeps `Int(1)` and `Bool(true)` apart, so `set([1, True])` has two elements in the model and one in Python.
- Config.BladeConfig.ReplaceConfig: for the same reason, a set item coerced from a list holding both `1` and `True` keeps two elements in the model where Python keeps one.
- Config.BladeConfig.CcConfig: mutation of the caller's `kwargs` dict is not modelled; the rewritten keywords are a new map.
- The built-in default sections are a constructor parameter. The other section functions (`global_config`, `java_config`, …) are plain `update_config` calls and are not modelled one by one.
- `try_parse_file`, `digest`, `dump`, `load_files`, the environment defaults of `go_config`, `_check_test_related_envs` and `protoc_plugin` involve file I/O, the environment, regular expressions and foreign classes, so they are not modelled.
