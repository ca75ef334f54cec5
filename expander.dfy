/**
 * The classpath queries of a Java target: which build variables (jars built
 * in this build) and which jar files go on its compile, test and packaging
 * classpaths.
 */
module Expander {

  import opened Strings
  import opened Targets
  import opened Classify
  import opened Resolver

  /** The `(dep_jar_vars, dep_jars)` pair the queries build up. */
  datatype JarLists = JarLists(vars: seq<string>, jars: seq<string>)

  /** The same pair once it has been turned into sets. */
  datatype JarSets = JarSets(vars: set<string>, jars: set<string>)

  const NoJars := JarLists([], [])

  // ---------------------------------------------------------------------------
  // `__extract_dep_jars` and `__get_deps`
  // ---------------------------------------------------------------------------

  /**
   * What `__extract_dep_jars` does for a dependency `t`: its `jar_var` when it
   * has one, otherwise its `binary_jar` when it has one, otherwise nothing.
   */
  function Extract(acc: JarLists, t: Target): JarLists
  {
    if t.jarVar != "" then JarLists(acc.vars + [t.jarVar], acc.jars)
    else if t.binaryJar != "" then JarLists(acc.vars, acc.jars + [t.binaryJar])
    else acc
  }

  /** `acc` after `__extract_dep_jars` of each of `deps` in turn. */
  function DepJarsFrom(acc: JarLists, db: Registry, deps: seq<Key>): JarLists
    requires forall d :: d in deps ==> d in db
  {
    if deps == [] then acc
    else Extract(DepJarsFrom(acc, db, deps[..|deps| - 1]), db[deps[|deps| - 1]])
  }

  /** The build variables of the given targets. */
  function JarVarSet(db: Registry, ks: set<Key>): set<string>
    requires ks <= db.Keys
  {
    set d | d in ks && db[d].jarVar != "" :: db[d].jarVar
  }

  /** The jar files of the given targets that have no build variable. */
  function BinaryJarSet(db: Registry, ks: set<Key>): set<string>
    requires ks <= db.Keys
  {
    set d | d in ks && db[d].jarVar == "" && db[d].binaryJar != "" :: db[d].binaryJar
  }

  lemma JarSetsAdd(db: Registry, ks: set<Key>, d: Key)
    requires ks <= db.Keys && d in db
    ensures JarVarSet(db, ks + {d}) == JarVarSet(db, ks) + (if db[d].jarVar != "" then {db[d].jarVar} else {})
    ensures BinaryJarSet(db, ks + {d})
            == BinaryJarSet(db, ks) + (if db[d].jarVar == "" && db[d].binaryJar != "" then {db[d].binaryJar} else {})
  {
  }

  lemma JarSetsUnion(db: Registry, a: set<Key>, b: set<Key>)
    requires a <= db.Keys && b <= db.Keys
    ensures JarVarSet(db, a + b) == JarVarSet(db, a) + JarVarSet(db, b)
    ensures BinaryJarSet(db, a + b) == BinaryJarSet(db, a) + BinaryJarSet(db, b)
  {
  }

  lemma ExtractElems(acc: JarLists, t: Target)
    ensures Elems(Extract(acc, t).vars) == Elems(acc.vars) + (if t.jarVar != "" then {t.jarVar} else {})
    ensures Elems(Extract(acc, t).jars)
            == Elems(acc.jars) + (if t.jarVar == "" && t.binaryJar != "" then {t.binaryJar} else {})
  {
    ElemsConcat(acc.vars, [t.jarVar]);
    ElemsConcat(acc.jars, [t.binaryJar]);
  }

  /**
   * The lists `__get_deps` fills hold, in some order and with repeats, exactly
   * the build variables of the deps, and the jar files of the deps that have
   * no build variable.
   */
  lemma {:induction false} DepJarsFromElems(acc: JarLists, db: Registry, deps: seq<Key>)
    requires forall d :: d in deps ==> d in db
    ensures Elems(DepJarsFrom(acc, db, deps).vars) == Elems(acc.vars) + JarVarSet(db, Elems(deps))
    ensures Elems(DepJarsFrom(acc, db, deps).jars) == Elems(acc.jars) + BinaryJarSet(db, Elems(deps))
  {
    if deps != [] {
      var init := deps[..|deps| - 1];
      var d := deps[|deps| - 1];
      assert deps == init + [d];
      ElemsConcat(init, [d]);
      assert Elems(deps) == Elems(init) + {d};
      var r := DepJarsFrom(acc, db, init);
      assert DepJarsFrom(acc, db, deps) == Extract(r, db[d]);
      DepJarsFromElems(acc, db, init);
      JarSetsAdd(db, Elems(init), d);
      ExtractElems(r, db[d]);
    }
  }

  /** A dependency with a build variable never contributes a jar file. */
  lemma {:induction false} JarVarShadowsBinaryJar(acc: JarLists, db: Registry, deps: seq<Key>)
    requires forall d :: d in deps ==> d in db && db[d].jarVar != ""
    ensures DepJarsFrom(acc, db, deps).jars == acc.jars
    ensures |DepJarsFrom(acc, db, deps).vars| == |acc.vars| + |deps|
  {
    if deps != [] {
      JarVarShadowsBinaryJar(acc, db, deps[..|deps| - 1]);
    }
  }

  /** `__extract_dep_jars(dkey, dep_jar_vars, dep_jars)`. */
  method ExtractDepJars(db: Registry, dkey: Key, depJarVars: seq<string>, depJars: seq<string>)
    returns (vars: seq<string>, jars: seq<string>)
    requires dkey in db
    ensures JarLists(vars, jars) == Extract(JarLists(depJarVars, depJars), db[dkey])
  {
    vars, jars := depJarVars, depJars;
    var dep := db[dkey];
    var jar := dep.jarVar;
    if jar != "" {
      vars := vars + [jar];
    } else {
      jar := dep.binaryJar;
      if jar != "" {
        jars := jars + [jar];
      }
    }
  }

  /** `__get_deps(deps)`. */
  method GetDeps(db: Registry, deps: seq<Key>) returns (vars: seq<string>, jars: seq<string>)
    requires forall d :: d in deps ==> d in db
    ensures JarLists(vars, jars) == DepJarsFrom(NoJars, db, deps)
    ensures Elems(vars) == JarVarSet(db, Elems(deps))
    ensures Elems(jars) == BinaryJarSet(db, Elems(deps))
  {
    vars, jars := [], [];
    var i := 0;
    while i < |deps|
      invariant 0 <= i <= |deps|
      invariant JarLists(vars, jars) == DepJarsFrom(NoJars, db, deps[..i])
    {
      PrefixSnoc(deps, i);
      vars, jars := ExtractDepJars(db, deps[i], vars, jars);
      i := i + 1;
    }
    assert deps[..i] == deps;
    DepJarsFromElems(NoJars, db, deps);
  }

  // ---------------------------------------------------------------------------
  // `__get_exported_deps`
  // ---------------------------------------------------------------------------

  /** The deps are registered, and so are the targets they export. */
  ghost predicate ExportsRegistered(db: Registry, deps: seq<Key>)
  {
    forall d | d in deps :: d in db && forall e | e in db[d].exportedDeps :: e in db
  }

  /** `acc` after the exported deps of each of `deps` are extracted, one hop only. */
  function ExportedFrom(acc: JarLists, db: Registry, deps: seq<Key>): JarLists
    requires ExportsRegistered(db, deps)
  {
    if deps == [] then acc
    else DepJarsFrom(ExportedFrom(acc, db, deps[..|deps| - 1]), db, db[deps[|deps| - 1]].exportedDeps)
  }

  /** The targets the given ones export. */
  function ExportedSet(db: Registry, ks: set<Key>): set<Key>
    requires ks <= db.Keys
  {
    set d, e | d in ks && e in db[d].exportedDeps :: e
  }

  lemma {:induction false} ExportedFromElems(acc: JarLists, db: Registry, deps: seq<Key>)
    requires ExportsRegistered(db, deps)
    ensures Elems(deps) <= db.Keys && ExportedSet(db, Elems(deps)) <= db.Keys
    ensures Elems(ExportedFrom(acc, db, deps).vars) == Elems(acc.vars) + JarVarSet(db, ExportedSet(db, Elems(deps)))
    ensures Elems(ExportedFrom(acc, db, deps).jars) == Elems(acc.jars) + BinaryJarSet(db, ExportedSet(db, Elems(deps)))
  {
    if deps != [] {
      var init := deps[..|deps| - 1];
      var d := deps[|deps| - 1];
      assert deps == init + [d];
      ElemsConcat(init, [d]);
      assert Elems(deps) == Elems(init) + {d};
      ExportedFromElems(acc, db, init);
      var r := ExportedFrom(acc, db, init);
      assert ExportedFrom(acc, db, deps) == DepJarsFrom(r, db, db[d].exportedDeps);
      DepJarsFromElems(r, db, db[d].exportedDeps);
      var e0 := ExportedSet(db, Elems(init));
      var e1 := Elems(db[d].exportedDeps);
      assert ExportedSet(db, Elems(deps)) == e0 + e1;
      JarSetsUnion(db, e0, e1);
    }
  }

  /** `__get_exported_deps(deps)`. */
  method GetExportedDeps(db: Registry, deps: seq<Key>) returns (vars: seq<string>, jars: seq<string>)
    requires ExportsRegistered(db, deps)
    ensures JarLists(vars, jars) == ExportedFrom(NoJars, db, deps)
    ensures Elems(vars) == JarVarSet(db, ExportedSet(db, Elems(deps)))
    ensures Elems(jars) == BinaryJarSet(db, ExportedSet(db, Elems(deps)))
  {
    vars, jars := [], [];
    var i := 0;
    while i < |deps|
      invariant 0 <= i <= |deps|
      invariant JarLists(vars, jars) == ExportedFrom(NoJars, db, deps[..i])
    {
      var exported := db[deps[i]].exportedDeps;
      ghost var before := JarLists(vars, jars);
      var j := 0;
      while j < |exported|
        invariant 0 <= j <= |exported|
        invariant JarLists(vars, jars) == DepJarsFrom(before, db, exported[..j])
      {
        PrefixSnoc(exported, j);
        vars, jars := ExtractDepJars(db, exported[j], vars, jars);
        j := j + 1;
      }
      assert exported[..j] == exported;
      PrefixSnoc(deps, i);
      i := i + 1;
    }
    assert deps[..i] == deps;
    ExportedFromElems(NoJars, db, deps);
  }

  // ---------------------------------------------------------------------------
  // `__get_maven_transitive_deps`
  // ---------------------------------------------------------------------------

  /** The `maven_deps` of the `maven_jar` targets among `deps`, in order. */
  function MavenTransitive(db: Registry, deps: seq<Key>): seq<string>
    requires forall d :: d in deps ==> d in db
  {
    if deps == [] then []
    else
      var t := db[deps[|deps| - 1]];
      MavenTransitive(db, deps[..|deps| - 1]) + (if t.kind == MavenJar then t.mavenDeps else [])
  }

  /** The jar files the given `maven_jar` targets depend on. */
  function MavenDepsSet(db: Registry, ks: set<Key>): set<string>
    requires ks <= db.Keys
  {
    set d, j | d in ks && db[d].kind == MavenJar && j in db[d].mavenDeps :: j
  }

  lemma {:induction false} MavenTransitiveElems(db: Registry, deps: seq<Key>)
    requires forall d :: d in deps ==> d in db
    ensures Elems(MavenTransitive(db, deps)) == MavenDepsSet(db, Elems(deps))
  {
    if deps != [] {
      var init := deps[..|deps| - 1];
      var d := deps[|deps| - 1];
      assert deps == init + [d];
      ElemsConcat(init, [d]);
      MavenTransitiveElems(db, init);
      ElemsConcat(MavenTransitive(db, init), if db[d].kind == MavenJar then db[d].mavenDeps else []);
      assert MavenDepsSet(db, Elems(init) + {d})
             == MavenDepsSet(db, Elems(init)) + (if db[d].kind == MavenJar then Elems(db[d].mavenDeps) else {});
    }
  }

  /** `__get_maven_transitive_deps(deps)`. */
  method GetMavenTransitiveDeps(db: Registry, deps: seq<Key>) returns (mavenJars: seq<string>)
    requires forall d :: d in deps ==> d in db
    ensures mavenJars == MavenTransitive(db, deps)
    ensures Elems(mavenJars) == MavenDepsSet(db, Elems(deps))
  {
    mavenJars := [];
    var i := 0;
    while i < |deps|
      invariant 0 <= i <= |deps|
      invariant mavenJars == MavenTransitive(db, deps[..i])
    {
      PrefixSnoc(deps, i);
      var dep := db[deps[i]];
      if dep.kind == MavenJar {
        mavenJars := mavenJars + dep.mavenDeps;
      }
      i := i + 1;
    }
    assert deps[..i] == deps;
    MavenTransitiveElems(db, deps);
  }

  // ---------------------------------------------------------------------------
  // `_get_compile_deps` and `_get_test_deps`
  // ---------------------------------------------------------------------------

  /**
   * `_get_compile_deps`: the build variables of the direct deps and of what
   * they export (one hop, no further), sorted and distinct; and the jar files
   * of both, with the Maven jars' own dependencies, after version conflicts
   * are resolved against the target's direct Maven ids.
   */
  method GetCompileDeps(db: Registry, k: Key) returns (vars: seq<string>, jars: seq<string>)
    requires k in db && ExportsRegistered(db, db[k].deps)
    ensures Elems(db[k].deps) <= db.Keys && ExportedSet(db, Elems(db[k].deps)) <= db.Keys
    ensures StrictlySorted(vars)
    ensures Elems(vars) == JarVarSet(db, Elems(db[k].deps)) + JarVarSet(db, ExportedSet(db, Elems(db[k].deps)))
    ensures Resolved(ParseRepoPath,
                     BinaryJarSet(db, Elems(db[k].deps)) + MavenDepsSet(db, Elems(db[k].deps))
                       + BinaryJarSet(db, ExportedSet(db, Elems(db[k].deps))),
                     MavenIdsOf(db, db[k].deps), jars)
  {
    var deps := db[k].deps;
    var depJarVars, directJars := GetDeps(db, deps);
    var exportedJarVars, exportedJars := GetExportedDeps(db, deps);
    var mavenJars := GetMavenTransitiveDeps(db, deps);
    var depJars := directJars + mavenJars;
    ElemsConcat(depJarVars, exportedJarVars);
    vars := SortedList(Elems(depJarVars + exportedJarVars));
    ElemsConcat(directJars, mavenJars);
    ElemsConcat(depJars, exportedJars);
    jars := DetectMavenConflictedDeps(db, deps, depJars + exportedJars);
  }

  /**
   * `_get_test_deps`: the same walk over `expanded_deps`, with no exported hop;
   * the Maven ids that win conflicts are still the direct deps' ones.
   */
  method GetTestDeps(db: Registry, k: Key) returns (vars: seq<string>, jars: seq<string>)
    requires k in db
    requires forall d :: d in db[k].deps ==> d in db
    requires forall d :: d in db[k].expandedDeps ==> d in db
    ensures Elems(db[k].expandedDeps) <= db.Keys
    ensures StrictlySorted(vars)
    ensures Elems(vars) == JarVarSet(db, Elems(db[k].expandedDeps))
    ensures Resolved(ParseRepoPath,
                     BinaryJarSet(db, Elems(db[k].expandedDeps)) + MavenDepsSet(db, Elems(db[k].expandedDeps)),
                     MavenIdsOf(db, db[k].deps), jars)
  {
    var expanded := db[k].expandedDeps;
    var depJarVars, directJars := GetDeps(db, expanded);
    var mavenJars := GetMavenTransitiveDeps(db, expanded);
    var depJars := directJars + mavenJars;
    vars := SortedList(Elems(depJarVars));
    ElemsConcat(directJars, mavenJars);
    jars := DetectMavenConflictedDeps(db, db[k].deps, depJars);
  }

  // ---------------------------------------------------------------------------
  // `_get_pack_deps` and `_get_java_pack_deps`
  // ---------------------------------------------------------------------------

  /** The deps `_get_pack_deps` walks: the direct ones, less the provided ones. */
  function PackedDeps(t: Target): set<Key>
  {
    Elems(t.deps) - Elems(t.providedDeps)
  }

  /**
   * `_get_java_pack_deps` as sets: a `maven_jar` gives its `maven_deps` and
   * nothing else, without recursing; a Java target gives its pack deps.
   */
  ghost function JavaPackSets(db: Registry, rank: map<Key, nat>, k: Key): JarSets
    requires Ranked(db, rank) && k in db
    decreases rank[k], 2
  {
    if db[k].kind == MavenJar then JarSets({}, Elems(db[k].mavenDeps))
    else PackSets(db, rank, k)
  }

  /** What the deps in `ds`, all below `k`, contribute through their own pack deps. */
  ghost function NestedPackSets(db: Registry, rank: map<Key, nat>, k: Key, ds: set<Key>): JarSets
    requires Ranked(db, rank) && k in db
    requires forall d | d in ds :: d in db && rank[d] < rank[k]
    decreases rank[k], 0
  {
    JarSets(set d, v | d in ds && v in JavaPackSets(db, rank, d).vars :: v,
            set d, j | d in ds && j in JavaPackSets(db, rank, d).jars :: j)
  }

  /**
   * `_get_pack_deps` as sets: the jars of the packed deps and everything they
   * pack in turn, less the build variables and jar files of the exclusions.
   */
  ghost function PackSets(db: Registry, rank: map<Key, nat>, k: Key): JarSets
    requires Ranked(db, rank) && k in db
    decreases rank[k], 1
  {
    var t := db[k];
    var ds := PackedDeps(t);
    assert forall d | d in ds :: d in t.deps;
    var nested := NestedPackSets(db, rank, k, ds);
    var ex := Elems(t.exclusions);
    JarSets(JarVarSet(db, ds) + nested.vars - JarVarSet(db, ex),
            BinaryJarSet(db, ds) + nested.jars - BinaryJarSet(db, ex))
  }

  /** Python's `discard` of each of `xs` from the set `s`. */
  method DiscardAll<T>(s: set<T>, xs: seq<T>) returns (r: set<T>)
    ensures r == s - Elems(xs)
  {
    r := s;
    var i := 0;
    while i < |xs|
      invariant 0 <= i <= |xs|
      invariant r == s - Elems(xs[..i])
    {
      PrefixSnoc(xs, i);
      ElemsConcat(xs[..i], [xs[i]]);
      r := r - {xs[i]};
      i := i + 1;
    }
    assert xs[..i] == xs;
  }

  /** The elements of a set in the order a loop over it visits them. */
  method SetOrder<T>(s: set<T>) returns (order: seq<T>)
    ensures Elems(order) == s
  {
    order := [];
    var rest := s;
    while rest != {}
      invariant rest <= s
      invariant Elems(order) == s - rest
      decreases |rest|
    {
      var x :| x in rest;
      ElemsConcat(order, [x]);
      order := order + [x];
      rest := rest - {x};
    }
  }

  lemma NestedPackSetsAdd(db: Registry, rank: map<Key, nat>, k: Key, ds: set<Key>, d: Key)
    requires Ranked(db, rank) && k in db
    requires forall e | e in ds + {d} :: e in db && rank[e] < rank[k]
    ensures NestedPackSets(db, rank, k, ds + {d}).vars
            == NestedPackSets(db, rank, k, ds).vars + JavaPackSets(db, rank, d).vars
    ensures NestedPackSets(db, rank, k, ds + {d}).jars
            == NestedPackSets(db, rank, k, ds).jars + JavaPackSets(db, rank, d).jars
  {
    NestedVarsAdd(db, rank, k, ds, d);
    NestedJarsAdd(db, rank, k, ds, d);
  }

  lemma NestedVarsAdd(db: Registry, rank: map<Key, nat>, k: Key, ds: set<Key>, d: Key)
    requires Ranked(db, rank) && k in db
    requires forall e | e in ds + {d} :: e in db && rank[e] < rank[k]
    ensures NestedPackSets(db, rank, k, ds + {d}).vars
            == NestedPackSets(db, rank, k, ds).vars + JavaPackSets(db, rank, d).vars
  {
    var sub := JavaPackSets(db, rank, d).vars;
    var before := NestedPackSets(db, rank, k, ds).vars;
    var after := NestedPackSets(db, rank, k, ds + {d}).vars;
    forall v | v in after ensures v in before + sub {
      var e :| e in ds + {d} && v in JavaPackSets(db, rank, e).vars;
    }
    forall v | v in before ensures v in after {
      var e :| e in ds && v in JavaPackSets(db, rank, e).vars;
    }
  }

  lemma NestedJarsAdd(db: Registry, rank: map<Key, nat>, k: Key, ds: set<Key>, d: Key)
    requires Ranked(db, rank) && k in db
    requires forall e | e in ds + {d} :: e in db && rank[e] < rank[k]
    ensures NestedPackSets(db, rank, k, ds + {d}).jars
            == NestedPackSets(db, rank, k, ds).jars + JavaPackSets(db, rank, d).jars
  {
    var sub := JavaPackSets(db, rank, d).jars;
    var before := NestedPackSets(db, rank, k, ds).jars;
    var after := NestedPackSets(db, rank, k, ds + {d}).jars;
    forall j | j in after ensures j in before + sub {
      var e :| e in ds + {d} && j in JavaPackSets(db, rank, e).jars;
    }
    forall j | j in before ensures j in after {
      var e :| e in ds && j in JavaPackSets(db, rank, e).jars;
    }
  }

  /**
   * `_get_java_pack_deps`, dispatched on the kind of target: a `maven_jar`
   * returns `([], maven_deps)`, a Java target its `_get_pack_deps`.
   */
  method GetJavaPackDeps(db: Registry, ghost rank: map<Key, nat>, k: Key) returns (vars: seq<string>, jars: seq<string>)
    requires Ranked(db, rank) && k in db
    ensures Elems(vars) == JavaPackSets(db, rank, k).vars
    ensures Elems(jars) == JavaPackSets(db, rank, k).jars
    ensures db[k].kind == MavenJar ==> vars == [] && jars == db[k].mavenDeps
    decreases rank[k], 2
  {
    if db[k].kind == MavenJar {
      vars, jars := [], db[k].mavenDeps;
    } else {
      vars, jars := GetPackDeps(db, rank, k);
    }
  }

  /**
   * `_get_pack_deps`: the packaging classpath, sorted and distinct. There is no
   * cycle check in the source; `rank` stands for the graph being acyclic.
   */
  method GetPackDeps(db: Registry, ghost rank: map<Key, nat>, k: Key) returns (vars: seq<string>, jars: seq<string>)
    requires Ranked(db, rank) && k in db
    ensures StrictlySorted(vars) && StrictlySorted(jars)
    ensures Elems(vars) == PackSets(db, rank, k).vars
    ensures Elems(jars) == PackSets(db, rank, k).jars
    ensures forall e | e in db[k].exclusions && db[e].jarVar != "" :: db[e].jarVar !in vars
    ensures forall e | e in db[k].exclusions && db[e].jarVar == "" && db[e].binaryJar != "" :: db[e].binaryJar !in jars
    decreases rank[k], 1
  {
    var t := db[k];
    var deps := DiscardAll(Elems(t.deps), t.providedDeps);
    var order := SetOrder(deps);
    forall d | d in order ensures d in t.deps && rank[d] < rank[k] {
      assert d in Elems(order);
    }
    var depJarVars, depJars := GetDeps(db, order);
    var i := 0;
    while i < |order|
      invariant 0 <= i <= |order|
      invariant Elems(depJarVars) == JarVarSet(db, deps) + NestedPackSets(db, rank, k, Elems(order[..i])).vars
      invariant Elems(depJars) == BinaryJarSet(db, deps) + NestedPackSets(db, rank, k, Elems(order[..i])).jars
    {
      var jarVars, subJars := GetJavaPackDeps(db, rank, order[i]);
      PackLoopStep(db, rank, k, deps, order, i, depJarVars, depJars, jarVars, subJars);
      depJarVars := depJarVars + jarVars;
      depJars := depJars + subJars;
      i := i + 1;
    }
    assert order[..i] == order;
    var varSet, jarSet := Elems(depJarVars), Elems(depJars);
    var exclusions := t.exclusions;
    if exclusions != [] {
      var excludeJarVars, excludeJars := GetDeps(db, exclusions);
      varSet := DiscardAll(varSet, excludeJarVars);
      jarSet := DiscardAll(jarSet, excludeJars);
    }
    PackSetsExcluded(db, rank, k, Elems(order));
    vars := SortedList(varSet);
    jars := SortedList(jarSet);
    PackExcludes(db, rank, k);
  }

  /** One turn of `_get_pack_deps`'s loop adds one dep's pack deps. */
  lemma PackLoopStep(db: Registry, rank: map<Key, nat>, k: Key, deps: set<Key>, order: seq<Key>, i: nat,
                     vars: seq<string>, jars: seq<string>, subVars: seq<string>, subJars: seq<string>)
    requires Ranked(db, rank) && k in db && i < |order|
    requires deps <= db.Keys
    requires forall d | d in order :: d in db && rank[d] < rank[k]
    requires Elems(vars) == JarVarSet(db, deps) + NestedPackSets(db, rank, k, Elems(order[..i])).vars
    requires Elems(jars) == BinaryJarSet(db, deps) + NestedPackSets(db, rank, k, Elems(order[..i])).jars
    requires Elems(subVars) == JavaPackSets(db, rank, order[i]).vars
    requires Elems(subJars) == JavaPackSets(db, rank, order[i]).jars
    ensures Elems(vars + subVars) == JarVarSet(db, deps) + NestedPackSets(db, rank, k, Elems(order[..i + 1])).vars
    ensures Elems(jars + subJars) == BinaryJarSet(db, deps) + NestedPackSets(db, rank, k, Elems(order[..i + 1])).jars
  {
    var seen := Elems(order[..i]);
    PrefixSnoc(order, i);
    ElemsConcat(order[..i], [order[i]]);
    assert Elems(order[..i + 1]) == seen + {order[i]};
    NestedPackSetsAdd(db, rank, k, seen, order[i]);
    ElemsConcat(vars, subVars);
    ElemsConcat(jars, subJars);
  }

  /** The sets `_get_pack_deps` builds, less its exclusions' jars, are `PackSets`. */
  lemma PackSetsExcluded(db: Registry, rank: map<Key, nat>, k: Key, ds: set<Key>)
    requires Ranked(db, rank) && k in db
    requires ds == PackedDeps(db[k])
    ensures forall d | d in ds :: d in db && rank[d] < rank[k]
    ensures Elems(db[k].exclusions) <= db.Keys
    ensures PackSets(db, rank, k).vars
            == JarVarSet(db, ds) + NestedPackSets(db, rank, k, ds).vars - JarVarSet(db, Elems(db[k].exclusions))
    ensures PackSets(db, rank, k).jars
            == BinaryJarSet(db, ds) + NestedPackSets(db, rank, k, ds).jars - BinaryJarSet(db, Elems(db[k].exclusions))
    ensures db[k].exclusions == [] ==> JarVarSet(db, Elems(db[k].exclusions)) == {}
    ensures db[k].exclusions == [] ==> BinaryJarSet(db, Elems(db[k].exclusions)) == {}
  {
  }

  // ---------------------------------------------------------------------------
  // What the packaging classpath contains
  // ---------------------------------------------------------------------------

  /** The build variable of a packed dep is packed, unless an exclusion has it. */
  lemma PackedDirect(db: Registry, rank: map<Key, nat>, k: Key, d: Key)
    requires Ranked(db, rank) && k in db
    requires d in PackedDeps(db[k]) && db[d].jarVar != ""
    requires forall e | e in db[k].exclusions :: db[e].jarVar != db[d].jarVar
    ensures db[d].jarVar in PackSets(db, rank, k).vars
  {
    var ds := PackedDeps(db[k]);
    PackSetsExcluded(db, rank, k, ds);
    assert db[d].jarVar in JarVarSet(db, ds);
  }

  /**
   * What a packed dep packs is packed in turn, less this target's exclusions:
   * the walk is a closure.
   */
  lemma PackedNested(db: Registry, rank: map<Key, nat>, k: Key, d: Key)
    requires Ranked(db, rank) && k in db
    requires d in PackedDeps(db[k])
    ensures d in db
    ensures JavaPackSets(db, rank, d).vars - JarVarSet(db, Elems(db[k].exclusions)) <= PackSets(db, rank, k).vars
    ensures JavaPackSets(db, rank, d).jars - BinaryJarSet(db, Elems(db[k].exclusions)) <= PackSets(db, rank, k).jars
  {
    var ds := PackedDeps(db[k]);
    PackSetsExcluded(db, rank, k, ds);
    var nested := NestedPackSets(db, rank, k, ds);
    forall v | v in JavaPackSets(db, rank, d).vars ensures v in nested.vars {
    }
    forall j | j in JavaPackSets(db, rank, d).jars ensures j in nested.jars {
    }
  }

  /**
   * A provided dep is only dropped from the target's own deps: reached through
   * another packed dep, it is packed all the same, unless an exclusion of
   * either target has its build variable.
   */
  lemma ProvidedReachableIsPacked(db: Registry, rank: map<Key, nat>, k: Key, a: Key, p: Key)
    requires Ranked(db, rank) && k in db
    requires p in db[k].providedDeps
    requires a in PackedDeps(db[k]) && db[a].kind != MavenJar
    requires p in PackedDeps(db[a]) && db[p].jarVar != ""
    requires forall e | e in db[k].exclusions + db[a].exclusions :: db[e].jarVar != db[p].jarVar
    ensures p in db && p !in PackedDeps(db[k])
    ensures db[p].jarVar in PackSets(db, rank, k).vars
  {
    PackedDirect(db, rank, a, p);
    PackedNested(db, rank, k, a);
    PackSetsExcluded(db, rank, k, PackedDeps(db[k]));
  }

  /** No build variable or jar file of an exclusion is packed. */
  lemma PackExcludes(db: Registry, rank: map<Key, nat>, k: Key)
    requires Ranked(db, rank) && k in db
    ensures forall e | e in db[k].exclusions && db[e].jarVar != "" :: db[e].jarVar !in PackSets(db, rank, k).vars
    ensures forall e | e in db[k].exclusions && db[e].jarVar == "" && db[e].binaryJar != "" ::
              db[e].binaryJar !in PackSets(db, rank, k).jars
  {
    var ex := Elems(db[k].exclusions);
    PackSetsExcluded(db, rank, k, PackedDeps(db[k]));
    forall e | e in db[k].exclusions && db[e].jarVar != "" ensures db[e].jarVar in JarVarSet(db, ex) {
      assert e in ex;
    }
    forall e | e in db[k].exclusions && db[e].jarVar == "" && db[e].binaryJar != ""
      ensures db[e].binaryJar in BinaryJarSet(db, ex)
    {
      assert e in ex;
    }
  }

  /**
   * `db2` differs from `db` at most in the target registered under `k`, and
   * not in that target's build variable or jar file.
   */
  predicate AgreeOff(db: Registry, db2: Registry, k: Key)
  {
    && k in db && db2.Keys == db.Keys
    && (forall x | x in db && x != k :: db2[x] == db[x])
    && db2[k].jarVar == db[k].jarVar && db2[k].binaryJar == db[k].binaryJar
  }

  /** Two registries that agree on the jars of `ks` give them the same jar sets. */
  lemma JarSetsAgree(db: Registry, db2: Registry, k: Key, ks: set<Key>)
    requires AgreeOff(db, db2, k) && ks <= db.Keys
    ensures JarVarSet(db2, ks) == JarVarSet(db, ks)
    ensures BinaryJarSet(db2, ks) == BinaryJarSet(db, ks)
  {
    assert forall x | x in ks :: db2[x].jarVar == db[x].jarVar && db2[x].binaryJar == db[x].binaryJar;
    forall v | v in JarVarSet(db2, ks) ensures v in JarVarSet(db, ks) {
      var x :| x in ks && db2[x].jarVar != "" && db2[x].jarVar == v;
    }
    forall v | v in JarVarSet(db, ks) ensures v in JarVarSet(db2, ks) {
      var x :| x in ks && db[x].jarVar != "" && db[x].jarVar == v;
    }
    forall v | v in BinaryJarSet(db2, ks) ensures v in BinaryJarSet(db, ks) {
      var x :| x in ks && db2[x].jarVar == "" && db2[x].binaryJar != "" && db2[x].binaryJar == v;
    }
    forall v | v in BinaryJarSet(db, ks) ensures v in BinaryJarSet(db2, ks) {
      var x :| x in ks && db[x].jarVar == "" && db[x].binaryJar != "" && db[x].binaryJar == v;
    }
  }

  /** One inclusion of `NestedAgree`, for the build variables and the jar files. */
  lemma NestedIncluded(db: Registry, db2: Registry, rank: map<Key, nat>, k: Key, ds: set<Key>)
    requires Ranked(db, rank) && Ranked(db2, rank) && k in db && k in db2
    requires forall d | d in ds :: d in db && d in db2 && rank[d] < rank[k]
    requires forall d | d in ds :: JavaPackSets(db2, rank, d) == JavaPackSets(db, rank, d)
    ensures NestedPackSets(db2, rank, k, ds).vars <= NestedPackSets(db, rank, k, ds).vars
    ensures NestedPackSets(db2, rank, k, ds).jars <= NestedPackSets(db, rank, k, ds).jars
  {
    var a := NestedPackSets(db, rank, k, ds);
    var b := NestedPackSets(db2, rank, k, ds);
    forall v | v in b.vars ensures v in a.vars {
      var d :| d in ds && v in JavaPackSets(db2, rank, d).vars;
      assert v in JavaPackSets(db, rank, d).vars;
    }
    forall j | j in b.jars ensures j in a.jars {
      var d :| d in ds && j in JavaPackSets(db2, rank, d).jars;
      assert j in JavaPackSets(db, rank, d).jars;
    }
  }

  /** The nested contributions agree when each dep's own pack deps agree. */
  lemma NestedAgree(db: Registry, db2: Registry, rank: map<Key, nat>, k: Key, ds: set<Key>)
    requires Ranked(db, rank) && Ranked(db2, rank) && k in db && k in db2
    requires forall d | d in ds :: d in db && d in db2 && rank[d] < rank[k]
    requires forall d | d in ds :: JavaPackSets(db2, rank, d) == JavaPackSets(db, rank, d)
    ensures NestedPackSets(db2, rank, k, ds) == NestedPackSets(db, rank, k, ds)
  {
    NestedIncluded(db, db2, rank, k, ds);
    NestedIncluded(db2, db, rank, k, ds);
  }

  /**
   * Away from `k`, the pack deps do not depend on `k`'s dependency lists: the
   * walk from a target ranked below `k` never comes back to `k`.
   */
  lemma {:induction false} PackFrame(db: Registry, db2: Registry, rank: map<Key, nat>, k: Key, j: Key)
    requires Ranked(db, rank) && Ranked(db2, rank) && AgreeOff(db, db2, k)
    requires j in db && rank[j] < rank[k]
    ensures JavaPackSets(db2, rank, j) == JavaPackSets(db, rank, j)
    decreases rank[j]
  {
    assert db2[j] == db[j];
    if db[j].kind != MavenJar {
      var t := db[j];
      var ds := PackedDeps(t);
      PackSetsExcluded(db, rank, j, ds);
      PackSetsExcluded(db2, rank, j, ds);
      forall d | d in ds ensures JavaPackSets(db2, rank, d) == JavaPackSets(db, rank, d) {
        PackFrame(db, db2, rank, k, d);
      }
      NestedAgree(db, db2, rank, j, ds);
      JarSetsAgree(db, db2, k, ds);
      JarSetsAgree(db, db2, k, Elems(t.exclusions));
    }
  }

  /**
   * The pack deps are those of the same target declared with its provided
   * deps left out of `deps` and no `provided_deps` at all: provided deps are
   * consulted only to drop them from the direct deps.
   */
  lemma PackIgnoresProvided(db: Registry, rank: map<Key, nat>, k: Key, packed: seq<Key>)
    requires Ranked(db, rank) && k in db
    requires Elems(packed) == PackedDeps(db[k])
    ensures Ranked(db[k := db[k].(deps := packed, providedDeps := [])], rank)
    ensures PackSets(db[k := db[k].(deps := packed, providedDeps := [])], rank, k) == PackSets(db, rank, k)
  {
    var t2 := db[k].(deps := packed, providedDeps := []);
    var db2 := db[k := t2];
    assert forall d | d in packed :: d in Elems(packed);
    assert Ranked(db2, rank);
    assert AgreeOff(db, db2, k);
    var ds := PackedDeps(db[k]);
    assert PackedDeps(t2) == ds by {
      ElemsEmpty(t2.providedDeps);
    }
    PackSetsExcluded(db, rank, k, ds);
    PackSetsExcluded(db2, rank, k, ds);
    forall d | d in ds ensures JavaPackSets(db2, rank, d) == JavaPackSets(db, rank, d) {
      PackFrame(db, db2, rank, k, d);
    }
    NestedAgree(db, db2, rank, k, ds);
    JarSetsAgree(db, db2, k, ds);
    JarSetsAgree(db, db2, k, Elems(t2.exclusions));
  }
}
