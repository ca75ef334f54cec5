/**
 * Declaring Java targets: `JavaTarget.__init__` and its subclasses fill a
 * target's dependency lists, and every Maven id met on the way is turned into a
 * `maven_jar` target, registered at most once per id.
 *
 * The foreign helpers are parameters: `isValidId` is `maven.is_valid_id`,
 * `unifyDep` is `Target._unify_dep`, `regularName` is
 * `blade_util.regular_variable_name`, `sourcePath` is `Target._source_file_path`.
 */
module Factory {

  import opened Strings
  import opened Targets
  import opened Classify

  /** `_add_maven_dep`'s key: `('#', regular_variable_name(id).replace(':', '_'))`. */
  function MavenDepKey(id: string, regularName: string -> string): (k: Key)
    ensures k.path == "#" && ':' !in k.name
  {
    MavenKey(ReplaceChar(regularName(id), ':', '_'))
  }

  /** The registry after `_add_maven_dep(id)`: the id's node is created only when its key is absent. */
  function EnsureMavenJar(m: Registry, id: string, regularName: string -> string): Registry
  {
    var key := MavenDepKey(id, regularName);
    if key in m then m else m[key := ImplicitMavenJar(id)]
  }

  /**
   * `_add_maven_dep` registers the id's key, keeps every existing entry, and
   * creates a fresh `maven_jar` only when the key was absent.
   */
  lemma EnsureMavenJarFacts(m: Registry, id: string, regularName: string -> string)
    ensures MavenDepKey(id, regularName) in EnsureMavenJar(m, id, regularName)
    ensures EnsureMavenJar(m, id, regularName).Keys == m.Keys + {MavenDepKey(id, regularName)}
    ensures forall k :: k in m ==> EnsureMavenJar(m, id, regularName)[k] == m[k]
    ensures MavenDepKey(id, regularName) in m ==> EnsureMavenJar(m, id, regularName) == m
    ensures MavenDepKey(id, regularName) !in m ==> EnsureMavenJar(m, id, regularName)[MavenDepKey(id, regularName)] == ImplicitMavenJar(id)
  {
  }

  /** The registry after `_add_maven_dep` was called for each id in turn. */
  function RegisterMavenIds(m: Registry, ids: seq<string>, regularName: string -> string): Registry
  {
    if ids == [] then m
    else EnsureMavenJar(RegisterMavenIds(m, ids[..|ids| - 1], regularName), ids[|ids| - 1], regularName)
  }

  /** One more id appends one more key, after whatever `prefix` the list already held. */
  lemma MavenKeysSnoc(prefix: seq<Key>, ids: seq<string>, x: string, regularName: string -> string)
    ensures prefix + MavenKeys(ids + [x], regularName) == prefix + MavenKeys(ids, regularName) + [MavenDepKey(x, regularName)]
  {
    assert (ids + [x])[..|ids|] == ids;
    var m := MavenKeys(ids, regularName);
    assert prefix + (m + [MavenDepKey(x, regularName)]) == prefix + m + [MavenDepKey(x, regularName)];
  }

  /** The keys of a list of Maven ids. */
  function MavenKeySet(ids: seq<string>, regularName: string -> string): set<Key>
  {
    set id | id in ids :: MavenDepKey(id, regularName)
  }

  lemma MavenKeySetSnoc(ids: seq<string>, x: string, regularName: string -> string)
    ensures MavenKeySet(ids + [x], regularName) == MavenKeySet(ids, regularName) + {MavenDepKey(x, regularName)}
  {
    assert forall id :: id in ids + [x] <==> id in ids || id == x;
  }

  lemma RegisterMavenIdsSnoc(m: Registry, ids: seq<string>, x: string, regularName: string -> string)
    ensures RegisterMavenIds(m, ids + [x], regularName) == EnsureMavenJar(RegisterMavenIds(m, ids, regularName), x, regularName)
  {
    assert (ids + [x])[..|ids|] == ids;
  }

  /** Registering ids adds exactly their keys and keeps every existing entry. */
  lemma {:induction false} RegisterMavenIdsFacts(m: Registry, ids: seq<string>, regularName: string -> string)
    ensures RegisterMavenIds(m, ids, regularName).Keys == m.Keys + MavenKeySet(ids, regularName)
    ensures forall k :: k in m ==> RegisterMavenIds(m, ids, regularName)[k] == m[k]
  {
    if ids != [] {
      var init := ids[..|ids| - 1];
      var x := ids[|ids| - 1];
      assert ids == init + [x];
      var before := RegisterMavenIds(m, init, regularName);
      RegisterMavenIdsFacts(m, init, regularName);
      MavenKeySetSnoc(init, x, regularName);
      RegisterMavenIdsSnoc(m, init, x, regularName);
      EnsureMavenJarFacts(before, x, regularName);
      assert RegisterMavenIds(m, ids, regularName) == EnsureMavenJar(before, x, regularName);
    }
  }

  /** Ids whose keys are all registered already add nothing. */
  lemma {:induction false} RegisterMavenIdsPresent(m: Registry, ids: seq<string>, regularName: string -> string)
    requires MavenKeySet(ids, regularName) <= m.Keys
    ensures RegisterMavenIds(m, ids, regularName) == m
  {
    if ids != [] {
      var init := ids[..|ids| - 1];
      var x := ids[|ids| - 1];
      assert ids == init + [x];
      MavenKeySetSnoc(init, x, regularName);
      RegisterMavenIdsPresent(m, init, regularName);
      RegisterMavenIdsSnoc(m, init, x, regularName);
      EnsureMavenJarFacts(m, x, regularName);
    }
  }

  /** Registering the same ids a second time changes nothing. */
  lemma RegisterMavenIdsIdempotent(m: Registry, ids: seq<string>, regularName: string -> string)
    ensures RegisterMavenIds(RegisterMavenIds(m, ids, regularName), ids, regularName) == RegisterMavenIds(m, ids, regularName)
  {
    RegisterMavenIdsFacts(m, ids, regularName);
    RegisterMavenIdsPresent(RegisterMavenIds(m, ids, regularName), ids, regularName);
  }

  /** The keys `_add_maven_dep` appends, one per id. */
  function MavenKeys(ids: seq<string>, regularName: string -> string): (r: seq<Key>)
    ensures |r| == |ids|
  {
    if ids == [] then []
    else MavenKeys(ids[..|ids| - 1], regularName) + [MavenDepKey(ids[|ids| - 1], regularName)]
  }

  /** The key at each position is that of the id at the same position. */
  lemma {:induction false} MavenKeysAt(ids: seq<string>, i: nat, regularName: string -> string)
    requires i < |ids|
    ensures MavenKeys(ids, regularName)[i] == MavenDepKey(ids[i], regularName)
  {
    if i < |ids| - 1 {
      MavenKeysAt(ids[..|ids| - 1], i, regularName);
    }
  }

  /** The key a dependency specifier stands for: a Maven jar's key or `_unify_dep`'s. */
  function SpecKey(spec: string, isValidId: string -> bool, unifyDep: string -> Key,
                   regularName: string -> string): Key
  {
    if isValidId(spec) then MavenDepKey(spec, regularName) else unifyDep(spec)
  }

  /** The keys `_unify_java_deps` returns: one per specifier, in order. */
  function SpecKeys(specs: seq<string>, isValidId: string -> bool, unifyDep: string -> Key,
                    regularName: string -> string): (r: seq<Key>)
    ensures |r| == |specs|
  {
    if specs == [] then []
    else SpecKeys(specs[..|specs| - 1], isValidId, unifyDep, regularName)
         + [SpecKey(specs[|specs| - 1], isValidId, unifyDep, regularName)]
  }

  lemma SpecKeysSnoc(specs: seq<string>, x: string, isValidId: string -> bool, unifyDep: string -> Key,
                     regularName: string -> string)
    ensures SpecKeys(specs + [x], isValidId, unifyDep, regularName)
         == SpecKeys(specs, isValidId, unifyDep, regularName) + [SpecKey(x, isValidId, unifyDep, regularName)]
  {
    assert (specs + [x])[..|specs|] == specs;
  }

  /** `_set_pack_exclusions`'s keys: every specifier through `_unify_dep`, in order. */
  function UnifiedKeys(specs: seq<string>, unifyDep: string -> Key): (r: seq<Key>)
    ensures |r| == |specs|
  {
    if specs == [] then [] else UnifiedKeys(specs[..|specs| - 1], unifyDep) + [unifyDep(specs[|specs| - 1])]
  }

  /** Append `k` unless it is already listed. */
  function AppendNew(s: seq<Key>, k: Key): (r: seq<Key>)
    ensures Elems(r) == Elems(s) + {k}
  {
    if k in s then s else s + [k]
  }

  /**
   * One step of `_add_hardcode_java_library` on a list: a Maven id's key is
   * appended unconditionally, any other key only when absent.
   */
  function HardcodeStep(s: seq<Key>, spec: string, isValidId: string -> bool,
                        unifyDep: string -> Key, regularName: string -> string): (r: seq<Key>)
  {
    if isValidId(spec) then s + [MavenDepKey(spec, regularName)] else AppendNew(s, unifyDep(spec))
  }

  /** A list after `_add_hardcode_java_library` has processed every specifier. */
  function HardcodeDeps(s: seq<Key>, specs: seq<string>, isValidId: string -> bool,
                        unifyDep: string -> Key, regularName: string -> string): seq<Key>
  {
    if specs == [] then s
    else HardcodeStep(HardcodeDeps(s, specs[..|specs| - 1], isValidId, unifyDep, regularName),
                      specs[|specs| - 1], isValidId, unifyDep, regularName)
  }

  lemma HardcodeDepsSnoc(s: seq<Key>, specs: seq<string>, x: string, isValidId: string -> bool,
                         unifyDep: string -> Key, regularName: string -> string)
    ensures HardcodeDeps(s, specs + [x], isValidId, unifyDep, regularName)
         == HardcodeStep(HardcodeDeps(s, specs, isValidId, unifyDep, regularName), x, isValidId, unifyDep, regularName)
  {
    assert (specs + [x])[..|specs|] == specs;
  }

  /** The keys a list of specifiers stands for. */
  function SpecKeySet(specs: seq<string>, isValidId: string -> bool, unifyDep: string -> Key,
                      regularName: string -> string): set<Key>
  {
    if specs == [] then {}
    else SpecKeySet(specs[..|specs| - 1], isValidId, unifyDep, regularName)
         + {SpecKey(specs[|specs| - 1], isValidId, unifyDep, regularName)}
  }

  /** `_add_hardcode_java_library` adds exactly the specifiers' keys to a list. */
  lemma {:induction false} HardcodeDepsElems(s: seq<Key>, specs: seq<string>, isValidId: string -> bool,
                                             unifyDep: string -> Key, regularName: string -> string)
    ensures Elems(HardcodeDeps(s, specs, isValidId, unifyDep, regularName))
         == Elems(s) + SpecKeySet(specs, isValidId, unifyDep, regularName)
  {
    if specs != [] {
      var init := specs[..|specs| - 1];
      var spec := specs[|specs| - 1];
      HardcodeDepsElems(s, init, isValidId, unifyDep, regularName);
      var before := HardcodeDeps(s, init, isValidId, unifyDep, regularName);
      if isValidId(spec) {
        ElemsConcat(before, [MavenDepKey(spec, regularName)]);
      } else if unifyDep(spec) !in before {
        ElemsConcat(before, [unifyDep(spec)]);
      }
    }
  }

  /**
   * `_add_hardcode_java_library` never duplicates a key that belongs to no Maven
   * id among the specifiers.
   */
  lemma {:induction false} HardcodeDepsNoDuplicate(s: seq<Key>, specs: seq<string>, k: Key, isValidId: string -> bool,
                                                   unifyDep: string -> Key, regularName: string -> string)
    requires forall x :: x in specs && isValidId(x) ==> MavenDepKey(x, regularName) != k
    requires multiset(s)[k] <= 1
    ensures multiset(HardcodeDeps(s, specs, isValidId, unifyDep, regularName))[k] <= 1
  {
    if specs != [] {
      var init := specs[..|specs| - 1];
      var spec := specs[|specs| - 1];
      assert forall x :: x in init ==> x in specs;
      HardcodeDepsNoDuplicate(s, init, k, isValidId, unifyDep, regularName);
      var before := HardcodeDeps(s, init, isValidId, unifyDep, regularName);
      if isValidId(spec) {
        assert multiset(before + [MavenDepKey(spec, regularName)])[k] == multiset(before)[k];
      }
    }
  }

  /**
   * Because both lists receive the same keys, `_add_hardcode_java_library` keeps
   * `expanded_deps` a superset of `deps`.
   */
  lemma HardcodeKeepsExpansion(deps: seq<Key>, expanded: seq<Key>, specs: seq<string>, isValidId: string -> bool,
                               unifyDep: string -> Key, regularName: string -> string)
    requires Elems(deps) <= Elems(expanded)
    ensures Elems(HardcodeDeps(deps, specs, isValidId, unifyDep, regularName))
         <= Elems(HardcodeDeps(expanded, specs, isValidId, unifyDep, regularName))
  {
    HardcodeDepsElems(deps, specs, isValidId, unifyDep, regularName);
    HardcodeDepsElems(expanded, specs, isValidId, unifyDep, regularName);
  }

  /**
   * The `deps` list `Target.__init__` builds from the target references: each
   * one unified, duplicates collapsed, first occurrence kept.
   */
  function BaseDeps(specs: seq<string>, unifyDep: string -> Key): (r: seq<Key>)
    ensures Elems(r) == set x | x in specs :: unifyDep(x)
  {
    if specs == [] then []
    else
      var init := specs[..|specs| - 1];
      assert specs == init + [specs[|specs| - 1]];
      AppendNew(BaseDeps(init, unifyDep), unifyDep(specs[|specs| - 1]))
  }

  // One loop iteration of each declaring method, as a fact about prefixes of its input.

  lemma HardcodeDepsStep(s: seq<Key>, specs: seq<string>, i: nat, isValidId: string -> bool,
                         unifyDep: string -> Key, regularName: string -> string)
    requires i < |specs|
    ensures HardcodeDeps(s, specs[..i + 1], isValidId, unifyDep, regularName)
         == HardcodeStep(HardcodeDeps(s, specs[..i], isValidId, unifyDep, regularName), specs[i], isValidId, unifyDep, regularName)
  {
    PrefixSnoc(specs, i);
    HardcodeDepsSnoc(s, specs[..i], specs[i], isValidId, unifyDep, regularName);
  }

  lemma MavenRegistryStep(m: Registry, specs: seq<string>, i: nat, isValidId: string -> bool, regularName: string -> string)
    requires i < |specs|
    ensures RegisterMavenIds(m, Select(specs[..i + 1], isValidId, true), regularName)
         == if isValidId(specs[i])
            then EnsureMavenJar(RegisterMavenIds(m, Select(specs[..i], isValidId, true), regularName), specs[i], regularName)
            else RegisterMavenIds(m, Select(specs[..i], isValidId, true), regularName)
  {
    PrefixSnoc(specs, i);
    SelectSnoc(specs[..i], specs[i], isValidId, true);
    RegisterMavenIdsSnoc(m, Select(specs[..i], isValidId, true), specs[i], regularName);
  }

  lemma MavenKeysStep(prefix: seq<Key>, specs: seq<string>, i: nat, isValidId: string -> bool, regularName: string -> string)
    requires i < |specs|
    ensures prefix + MavenKeys(Select(specs[..i + 1], isValidId, true), regularName)
         == if isValidId(specs[i])
            then prefix + MavenKeys(Select(specs[..i], isValidId, true), regularName) + [MavenDepKey(specs[i], regularName)]
            else prefix + MavenKeys(Select(specs[..i], isValidId, true), regularName)
  {
    PrefixSnoc(specs, i);
    SelectSnoc(specs[..i], specs[i], isValidId, true);
    MavenKeysSnoc(prefix, Select(specs[..i], isValidId, true), specs[i], regularName);
  }

  lemma SpecKeysStep(specs: seq<string>, i: nat, isValidId: string -> bool, unifyDep: string -> Key, regularName: string -> string)
    requires i < |specs|
    ensures SpecKeys(specs[..i + 1], isValidId, unifyDep, regularName)
         == SpecKeys(specs[..i], isValidId, unifyDep, regularName) + [SpecKey(specs[i], isValidId, unifyDep, regularName)]
  {
    PrefixSnoc(specs, i);
    SpecKeysSnoc(specs[..i], specs[i], isValidId, unifyDep, regularName);
  }

  lemma MavenIdsStep(prefix: seq<Key>, m: Registry, ids: seq<string>, i: nat, regularName: string -> string)
    requires i < |ids|
    ensures prefix + MavenKeys(ids[..i + 1], regularName) == prefix + MavenKeys(ids[..i], regularName) + [MavenDepKey(ids[i], regularName)]
    ensures RegisterMavenIds(m, ids[..i + 1], regularName) == EnsureMavenJar(RegisterMavenIds(m, ids[..i], regularName), ids[i], regularName)
  {
    PrefixSnoc(ids, i);
    MavenKeysSnoc(prefix, ids[..i], ids[i], regularName);
    RegisterMavenIdsSnoc(m, ids[..i], ids[i], regularName);
  }

  /**
   * The `deps` of a freshly declared Java target: the unified target references
   * (duplicates collapsed) followed by one key per Maven id, in the order met.
   */
  function InitDeps(specs: seq<string>, isValidId: string -> bool, unifyDep: string -> Key,
                    regularName: string -> string): seq<Key>
  {
    BaseDeps(Select(specs, isValidId, false), unifyDep) + MavenKeys(Select(specs, isValidId, true), regularName)
  }

  /**
   * The `deps` of a `java_library`: those of all its specifiers (plain, exported
   * and provided), then the Maven keys `_unify_java_deps` appends once more
   * while it unifies the exported and then the provided list.
   */
  function LibraryDeps(specs: seq<string>, exported: seq<string>, provided: seq<string>, isValidId: string -> bool,
                       unifyDep: string -> Key, regularName: string -> string): seq<Key>
  {
    InitDeps(specs + exported + provided, isValidId, unifyDep, regularName)
    + MavenKeys(Select(exported, isValidId, true), regularName)
    + MavenKeys(Select(provided, isValidId, true), regularName)
  }

  /** A Java target while it is being declared (`JavaTarget` and its subclasses). */
  class JavaTarget {
    const key: Key
    var kind: Kind
    var deps: seq<Key>
    var expandedDeps: seq<Key>
    var exportedDeps: seq<Key>
    var providedDeps: seq<Key>
    var exclusions: seq<Key>
    var binaryJar: string
    var mainClass: string

    /** The declared dependencies are all expanded dependencies too. */
    ghost predicate Valid()
      reads this
    {
      Elems(deps) <= Elems(expandedDeps)
    }

    /**
     * `_add_maven_dep`: create and register the id's `maven_jar` unless its key
     * is taken, and append the key to both lists even when already present.
     */
    method AddMavenDep(db: TargetDatabase, id: string, regularName: string -> string) returns (k: Key)
      requires Valid()
      modifies this`deps, this`expandedDeps, db
      ensures Valid()
      ensures k == MavenDepKey(id, regularName)
      ensures db.targets == EnsureMavenJar(old(db.targets), id, regularName)
      ensures deps == old(deps) + [k] && expandedDeps == old(expandedDeps) + [k]
    {
      var name := ReplaceChar(regularName(id), ':', '_');
      k := Key("#", name);
      if k !in db.targets {
        db.Register(k, ImplicitMavenJar(id));
      }
      ElemsConcat(deps, [k]);
      ElemsConcat(expandedDeps, [k]);
      deps := deps + [k];
      expandedDeps := expandedDeps + [k];
    }

    /** `_add_hardcode_java_library`: add a fixed list of dependency specifiers. */
    method AddHardcodeJavaLibrary(db: TargetDatabase, specs: seq<string>, isValidId: string -> bool,
                                  unifyDep: string -> Key, regularName: string -> string)
      requires Valid()
      modifies this`deps, this`expandedDeps, db
      ensures Valid()
      ensures deps == HardcodeDeps(old(deps), specs, isValidId, unifyDep, regularName)
      ensures expandedDeps == HardcodeDeps(old(expandedDeps), specs, isValidId, unifyDep, regularName)
      ensures db.targets == RegisterMavenIds(old(db.targets), Select(specs, isValidId, true), regularName)
    {
      ghost var d0, e0, m0 := deps, expandedDeps, db.targets;
      var i := 0;
      while i < |specs|
        invariant 0 <= i <= |specs|
        invariant deps == HardcodeDeps(d0, specs[..i], isValidId, unifyDep, regularName)
        invariant expandedDeps == HardcodeDeps(e0, specs[..i], isValidId, unifyDep, regularName)
        invariant db.targets == RegisterMavenIds(m0, Select(specs[..i], isValidId, true), regularName)
        invariant Valid()
      {
        var spec := specs[i];
        HardcodeDepsStep(d0, specs, i, isValidId, unifyDep, regularName);
        HardcodeDepsStep(e0, specs, i, isValidId, unifyDep, regularName);
        MavenRegistryStep(m0, specs, i, isValidId, regularName);
        AddHardcodeDep(db, spec, isValidId, unifyDep, regularName);
        i := i + 1;
      }
      assert specs[..i] == specs;
    }

    /**
     * One iteration of `_add_hardcode_java_library`: a Maven id goes through
     * `_add_maven_dep`; any other specifier is unified and appended to each list
     * that does not hold it yet.
     */
    method AddHardcodeDep(db: TargetDatabase, spec: string, isValidId: string -> bool,
                          unifyDep: string -> Key, regularName: string -> string)
      requires Valid()
      modifies this`deps, this`expandedDeps, db
      ensures Valid()
      ensures deps == HardcodeStep(old(deps), spec, isValidId, unifyDep, regularName)
      ensures expandedDeps == HardcodeStep(old(expandedDeps), spec, isValidId, unifyDep, regularName)
      ensures db.targets == if isValidId(spec) then EnsureMavenJar(old(db.targets), spec, regularName) else old(db.targets)
    {
      if isValidId(spec) {
        var _ := AddMavenDep(db, spec, regularName);
      } else {
        var dkey := unifyDep(spec);
        ElemsConcat(deps, [dkey]);
        ElemsConcat(expandedDeps, [dkey]);
        if dkey !in deps {
          deps := deps + [dkey];
        }
        if dkey !in expandedDeps {
          expandedDeps := expandedDeps + [dkey];
        }
      }
    }

    /**
     * `_unify_java_deps`: the key of every specifier, registering Maven ids
     * through `_add_maven_dep` (which appends their keys to the lists again).
     */
    method UnifyJavaDeps(db: TargetDatabase, specs: seq<string>, isValidId: string -> bool,
                         unifyDep: string -> Key, regularName: string -> string) returns (dkeys: seq<Key>)
      requires Valid()
      modifies this`deps, this`expandedDeps, db
      ensures Valid()
      ensures dkeys == SpecKeys(specs, isValidId, unifyDep, regularName)
      ensures deps == old(deps) + MavenKeys(Select(specs, isValidId, true), regularName)
      ensures expandedDeps == old(expandedDeps) + MavenKeys(Select(specs, isValidId, true), regularName)
      ensures db.targets == RegisterMavenIds(old(db.targets), Select(specs, isValidId, true), regularName)
    {
      ghost var d0, e0, m0 := deps, expandedDeps, db.targets;
      dkeys := [];
      var i := 0;
      while i < |specs|
        invariant 0 <= i <= |specs|
        invariant dkeys == SpecKeys(specs[..i], isValidId, unifyDep, regularName)
        invariant deps == d0 + MavenKeys(Select(specs[..i], isValidId, true), regularName)
        invariant expandedDeps == e0 + MavenKeys(Select(specs[..i], isValidId, true), regularName)
        invariant db.targets == RegisterMavenIds(m0, Select(specs[..i], isValidId, true), regularName)
        invariant Valid()
      {
        var spec := specs[i];
        MavenKeysStep(d0, specs, i, isValidId, regularName);
        MavenKeysStep(e0, specs, i, isValidId, regularName);
        MavenRegistryStep(m0, specs, i, isValidId, regularName);
        SpecKeysStep(specs, i, isValidId, unifyDep, regularName);
        if isValidId(spec) {
          var dkey := AddMavenDep(db, spec, regularName);
          dkeys := dkeys + [dkey];
        } else {
          dkeys := dkeys + [unifyDep(spec)];
        }
        i := i + 1;
      }
      assert specs[..i] == specs;
    }

    /** `_set_pack_exclusions`: the unified keys of the excluded targets, in order. */
    method SetPackExclusions(specs: seq<string>, unifyDep: string -> Key)
      requires Valid()
      modifies this`exclusions
      ensures Valid()
      ensures exclusions == UnifiedKeys(specs, unifyDep)
    {
      exclusions := [];
      var i := 0;
      while i < |specs|
        invariant 0 <= i <= |specs|
        invariant exclusions == UnifiedKeys(specs[..i], unifyDep)
      {
        PrefixSnoc(specs, i);
        exclusions := exclusions + [unifyDep(specs[i])];
        i := i + 1;
      }
      assert specs[..i] == specs;
    }

    /**
     * `JavaTarget.__init__`: split the specifiers, let the base target take the
     * references, and add every Maven id through `_add_maven_dep`.
     */
    method InitJavaTarget(db: TargetDatabase, specs: seq<string>, isValidId: string -> bool,
                          unifyDep: string -> Key, regularName: string -> string)
      modifies this`deps, this`expandedDeps, db
      ensures deps == InitDeps(specs, isValidId, unifyDep, regularName)
      ensures expandedDeps == deps && Valid()
      ensures db.targets == RegisterMavenIds(old(db.targets), Select(specs, isValidId, true), regularName)
    {
      ghost var m0 := db.targets;
      var targetSpecs, mavenIds := FilterDeps(specs, isValidId);
      deps := BaseDeps(targetSpecs, unifyDep);
      expandedDeps := deps;
      var base := deps;
      var i := 0;
      while i < |mavenIds|
        invariant 0 <= i <= |mavenIds|
        invariant deps == base + MavenKeys(mavenIds[..i], regularName)
        invariant expandedDeps == deps
        invariant db.targets == RegisterMavenIds(m0, mavenIds[..i], regularName)
      {
        MavenIdsStep(base, m0, mavenIds, i, regularName);
        var _ := AddMavenDep(db, mavenIds[i], regularName);
        i := i + 1;
      }
      assert mavenIds[..i] == mavenIds;
    }

    /**
     * `JavaLibrary.__init__`: exported and provided deps are declared deps as
     * well, and are then unified a second time into their own lists.
     */
    constructor Library(db: TargetDatabase, key: Key, specs: seq<string>, exported: seq<string>,
                        provided: seq<string>, prebuilt: bool, jarPath: string,
                        isValidId: string -> bool, unifyDep: string -> Key,
                        regularName: string -> string, sourcePath: string -> string)
      modifies db
      ensures this.key == key
      ensures kind == (if prebuilt then PrebuiltJavaLibrary else JavaLibrary)
      ensures exportedDeps == SpecKeys(exported, isValidId, unifyDep, regularName)
      ensures providedDeps == SpecKeys(provided, isValidId, unifyDep, regularName)
      ensures deps == LibraryDeps(specs, exported, provided, isValidId, unifyDep, regularName)
      ensures expandedDeps == deps && Valid()
      ensures Elems(exportedDeps) <= Elems(deps) && Elems(providedDeps) <= Elems(deps)
      ensures exclusions == [] && mainClass == ""
      ensures binaryJar == (if prebuilt then sourcePath(jarPath) else "")
      ensures db.targets == LibraryRegistry(old(db.targets), specs, exported, provided, isValidId, regularName)
    {
      this.key := key;
      kind := if prebuilt then PrebuiltJavaLibrary else JavaLibrary;
      deps, expandedDeps, exportedDeps, providedDeps, exclusions := [], [], [], [], [];
      binaryJar := if prebuilt then sourcePath(jarPath) else "";
      mainClass := "";
      new;
      InitLibraryDeps(db, specs, exported, provided, isValidId, unifyDep, regularName);
    }

    /** The dependency part of `JavaLibrary.__init__`. */
    method InitLibraryDeps(db: TargetDatabase, specs: seq<string>, exported: seq<string>, provided: seq<string>,
                           isValidId: string -> bool, unifyDep: string -> Key, regularName: string -> string)
      modifies this`deps, this`expandedDeps, this`exportedDeps, this`providedDeps, db
      ensures exportedDeps == SpecKeys(exported, isValidId, unifyDep, regularName)
      ensures providedDeps == SpecKeys(provided, isValidId, unifyDep, regularName)
      ensures deps == LibraryDeps(specs, exported, provided, isValidId, unifyDep, regularName)
      ensures expandedDeps == deps && Valid()
      ensures Elems(exportedDeps) <= Elems(deps) && Elems(providedDeps) <= Elems(deps)
      ensures db.targets == LibraryRegistry(old(db.targets), specs, exported, provided, isValidId, regularName)
    {
      InitJavaTarget(db, specs + exported + provided, isValidId, unifyDep, regularName);
      exportedDeps := UnifyJavaDeps(db, exported, isValidId, unifyDep, regularName);
      providedDeps := UnifyJavaDeps(db, provided, isValidId, unifyDep, regularName);
      LibraryDepsCover(specs, exported, provided, isValidId, unifyDep, regularName);
    }

    /** `JavaBinary.__init__`: a blank `exclusions` leaves the entry unset. */
    constructor Binary(db: TargetDatabase, key: Key, specs: seq<string>, mainClass: string,
                       excluded: seq<string>, isValidId: string -> bool, unifyDep: string -> Key,
                       regularName: string -> string)
      modifies db
      ensures this.key == key && kind == JavaBinary && this.mainClass == mainClass
      ensures deps == InitDeps(specs, isValidId, unifyDep, regularName)
      ensures expandedDeps == deps && Valid()
      ensures exportedDeps == [] && providedDeps == [] && binaryJar == ""
      ensures exclusions == (if excluded == [] then [] else UnifiedKeys(excluded, unifyDep))
      ensures db.targets == RegisterMavenIds(old(db.targets), Select(specs, isValidId, true), regularName)
    {
      this.key := key;
      kind := JavaBinary;
      deps, expandedDeps, exportedDeps, providedDeps, exclusions := [], [], [], [], [];
      binaryJar, this.mainClass := "", mainClass;
      new;
      InitJavaTarget(db, specs, isValidId, unifyDep, regularName);
      if excluded != [] {
        SetPackExclusions(excluded, unifyDep);
      }
    }

    /** `JavaTest.__init__`: a binary without exclusions whose type is then changed to `java_test`. */
    constructor Test(db: TargetDatabase, key: Key, specs: seq<string>, mainClass: string,
                     isValidId: string -> bool, unifyDep: string -> Key, regularName: string -> string)
      modifies db
      ensures this.key == key && kind == JavaTest && this.mainClass == mainClass
      ensures deps == InitDeps(specs, isValidId, unifyDep, regularName)
      ensures expandedDeps == deps && Valid()
      ensures exportedDeps == [] && providedDeps == [] && exclusions == [] && binaryJar == ""
      ensures db.targets == RegisterMavenIds(old(db.targets), Select(specs, isValidId, true), regularName)
    {
      this.key := key;
      kind := JavaBinary;
      deps, expandedDeps, exportedDeps, providedDeps, exclusions := [], [], [], [], [];
      binaryJar, this.mainClass := "", mainClass;
      new;
      InitJavaTarget(db, specs, isValidId, unifyDep, regularName);
      kind := JavaTest;
    }

    /** `JavaFatLibrary.__init__`. */
    constructor FatLibrary(db: TargetDatabase, key: Key, specs: seq<string>, excluded: seq<string>,
                           isValidId: string -> bool, unifyDep: string -> Key, regularName: string -> string)
      modifies db
      ensures this.key == key && kind == JavaFatLibrary && mainClass == ""
      ensures deps == InitDeps(specs, isValidId, unifyDep, regularName)
      ensures expandedDeps == deps && Valid()
      ensures exportedDeps == [] && providedDeps == [] && binaryJar == ""
      ensures exclusions == (if excluded == [] then [] else UnifiedKeys(excluded, unifyDep))
      ensures db.targets == RegisterMavenIds(old(db.targets), Select(specs, isValidId, true), regularName)
    {
      this.key := key;
      kind := JavaFatLibrary;
      deps, expandedDeps, exportedDeps, providedDeps, exclusions := [], [], [], [], [];
      binaryJar, mainClass := "", "";
      new;
      InitJavaTarget(db, specs, isValidId, unifyDep, regularName);
      if excluded != [] {
        SetPackExclusions(excluded, unifyDep);
      }
    }
  }

  /** A specifier of `all` has its key among the deps `JavaTarget.__init__` built from `all`. */
  lemma SpecKeyListed(all: seq<string>, x: string, isValidId: string -> bool,
                      unifyDep: string -> Key, regularName: string -> string, deps: seq<Key>)
    requires x in all
    requires deps == InitDeps(all, isValidId, unifyDep, regularName)
    ensures SpecKey(x, isValidId, unifyDep, regularName) in deps
  {
    SelectPartition(all, isValidId);
    SelectSound(all, isValidId, false);
    SelectSound(all, isValidId, true);
    assert x in multiset(all);
    if isValidId(x) {
      assert x in multiset(Select(all, isValidId, true));
      var ids := Select(all, isValidId, true);
      var i :| 0 <= i < |ids| && ids[i] == x;
      var maven := MavenKeys(ids, regularName);
      MavenKeysAt(ids, i, regularName);
      assert maven[i] in deps;
    } else {
      assert x in multiset(Select(all, isValidId, false));
      assert unifyDep(x) in Elems(BaseDeps(Select(all, isValidId, false), unifyDep));
    }
  }

  /**
   * The keys of `part`, a sub-list of `all`, are all among the deps
   * `JavaTarget.__init__` built from `all`: this is why a library's exported
   * and provided deps are subsets of its deps.
   */
  lemma {:induction false} SpecKeysListed(all: seq<string>, part: seq<string>, isValidId: string -> bool,
                                          unifyDep: string -> Key, regularName: string -> string, deps: seq<Key>)
    requires forall x :: x in part ==> x in all
    requires deps == InitDeps(all, isValidId, unifyDep, regularName)
    ensures Elems(SpecKeys(part, isValidId, unifyDep, regularName)) <= Elems(deps)
  {
    if part != [] {
      var init, x := part[..|part| - 1], part[|part| - 1];
      assert forall y :: y in init ==> y in part;
      SpecKeysListed(all, init, isValidId, unifyDep, regularName, deps);
      SpecKeyListed(all, x, isValidId, unifyDep, regularName, deps);
    }
  }

  /** The registry after a `java_library` is declared: the same three rounds of Maven ids. */
  function LibraryRegistry(m: Registry, specs: seq<string>, exported: seq<string>, provided: seq<string>,
                           isValidId: string -> bool, regularName: string -> string): Registry
  {
    RegisterMavenIds(RegisterMavenIds(RegisterMavenIds(m,
      Select(specs + exported + provided, isValidId, true), regularName),
      Select(exported, isValidId, true), regularName),
      Select(provided, isValidId, true), regularName)
  }

  /** A library's exported and provided deps are among its deps. */
  lemma LibraryDepsCover(specs: seq<string>, exported: seq<string>, provided: seq<string>, isValidId: string -> bool,
                         unifyDep: string -> Key, regularName: string -> string)
    ensures Elems(SpecKeys(exported, isValidId, unifyDep, regularName))
         <= Elems(LibraryDeps(specs, exported, provided, isValidId, unifyDep, regularName))
    ensures Elems(SpecKeys(provided, isValidId, unifyDep, regularName))
         <= Elems(LibraryDeps(specs, exported, provided, isValidId, unifyDep, regularName))
  {
    var all := specs + exported + provided;
    var init := InitDeps(all, isValidId, unifyDep, regularName);
    var e := MavenKeys(Select(exported, isValidId, true), regularName);
    var p := MavenKeys(Select(provided, isValidId, true), regularName);
    SpecKeysListed(all, exported, isValidId, unifyDep, regularName, init);
    SpecKeysListed(all, provided, isValidId, unifyDep, regularName, init);
    ElemsConcat(init, e);
    ElemsConcat(init + e, p);
  }
}
